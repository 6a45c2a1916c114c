/** The pieces of Python's string handling that the tracker relies on:
    `str.split()` (on whitespace), `str.split('.')`, `'.'.join`, `int(str)`
    in base 10 and `str(int)`. */
module PyText {
  import opened Errors

  /** Python's `str.isspace()`: the characters `str.split()` treats as whitespace. */
  predicate IsSpace(c: char) {
    || ('\t' <= c <= '\r')
    || ('\U{1C}' <= c <= ' ')
    || c == '\U{85}' || c == '\U{A0}' || c == '\U{1680}'
    || ('\U{2000}' <= c <= '\U{200A}')
    || c == '\U{2028}' || c == '\U{2029}' || c == '\U{202F}' || c == '\U{205F}' || c == '\U{3000}'
  }

  /** An ASCII decimal digit. */
  predicate IsDigit(c: char) { '0' <= c <= '9' }

  predicate AllSpace(s: string) { forall i :: 0 <= i < |s| ==> IsSpace(s[i]) }

  predicate NoSpace(s: string) { forall i :: 0 <= i < |s| ==> !IsSpace(s[i]) }

  /** The regular expression `\d+` over ASCII digits. */
  predicate IsDigits(s: string) { |s| > 0 && forall i :: 0 <= i < |s| ==> IsDigit(s[i]) }

  // ---------------------------------------------------------------------
  // str.split() and its last element

  /** Length of `s` without its trailing whitespace. */
  function TrimmedEnd(s: string): (m: nat)
    ensures m <= |s| && AllSpace(s[m..]) && (m > 0 ==> !IsSpace(s[m - 1]))
  {
    if |s| == 0 || !IsSpace(s[|s| - 1]) then |s|
    else
      var m := TrimmedEnd(s[..|s| - 1]);
      assert forall i :: m <= i < |s| - 1 ==> s[..|s| - 1][i] == s[i];
      m
  }

  /** Number of leading whitespace characters of `s`. */
  function TrimmedStart(s: string): (k: nat)
    ensures k <= |s| && AllSpace(s[..k]) && (k < |s| ==> !IsSpace(s[k]))
  {
    if |s| == 0 || !IsSpace(s[0]) then 0 else 1 + TrimmedStart(s[1..])
  }

  /** Start of the run of non-whitespace characters that ends at `m`. */
  function TokenStart(s: string, m: nat): (k: nat)
    requires m <= |s|
    ensures k <= m && NoSpace(s[k..m]) && (k == 0 || IsSpace(s[k - 1]))
  {
    if m == 0 || IsSpace(s[m - 1]) then m
    else
      var k := TokenStart(s, m - 1);
      assert forall i :: k <= i < m - 1 ==> s[k..m - 1][i - k] == s[i];
      k
  }

  /** `s[k..m]` is the last whitespace-separated token of `s`: a non-empty
      run of non-whitespace, preceded by whitespace or the start of `s` and
      followed only by whitespace. */
  predicate LastTokenAt(s: string, k: int, m: int) {
    0 <= k < m <= |s| && NoSpace(s[k..m]) && AllSpace(s[m..]) && (k == 0 || IsSpace(s[k - 1]))
  }

  /** `s.split()[-1]`: the last whitespace-separated token, or IndexError
      when `s` holds nothing but whitespace. */
  function LastToken(s: string): (r: Result<string>)
    ensures r.Err? <==> AllSpace(s)
    ensures r.Err? ==> r.error == IndexOutOfRange
    ensures r.Ok? ==> exists k, m :: LastTokenAt(s, k, m) && r.value == s[k..m]
  {
    var m := TrimmedEnd(s);
    if m == 0 then Err(IndexOutOfRange)
    else
      var k := TokenStart(s, m);
      assert LastTokenAt(s, k, m);
      Ok(s[k..m])
  }

  /** The last token is determined by `s`: no two positions satisfy `LastTokenAt`. */
  lemma LastTokenUnique(s: string, k: int, m: int, k': int, m': int)
    requires LastTokenAt(s, k, m) && LastTokenAt(s, k', m')
    ensures k == k' && m == m'
  {
    assert forall i :: k <= i < m ==> !IsSpace(s[i]) by {
      forall i | k <= i < m ensures !IsSpace(s[i]) { assert s[k..m][i - k] == s[i]; }
    }
    assert forall i :: k' <= i < m' ==> !IsSpace(s[i]) by {
      forall i | k' <= i < m' ensures !IsSpace(s[i]) { assert s[k'..m'][i - k'] == s[i]; }
    }
    assert forall i :: m <= i < |s| ==> IsSpace(s[i]) by {
      forall i | m <= i < |s| ensures IsSpace(s[i]) { assert s[m..][i - m] == s[i]; }
    }
    assert forall i :: m' <= i < |s| ==> IsSpace(s[i]) by {
      forall i | m' <= i < |s| ensures IsSpace(s[i]) { assert s[m'..][i - m'] == s[i]; }
    }
    assert !IsSpace(s[m - 1]) && !IsSpace(s[m' - 1]);
    assert m == m';
    assert k > 0 ==> IsSpace(s[k - 1]);
    assert k' > 0 ==> IsSpace(s[k' - 1]);
  }

  // ---------------------------------------------------------------------
  // str.split('.') and '.'.join

  /** `s.split('.')`: the pieces between dots, at least one, none containing a dot. */
  function SplitDot(s: string): (parts: seq<string>)
    ensures |parts| >= 1
    ensures forall i :: 0 <= i < |parts| ==> '.' !in parts[i]
  {
    if |s| == 0 then [""]
    else
      var rest := SplitDot(s[1..]);
      if s[0] == '.' then [""] + rest
      else
        assert forall i :: 1 <= i < |rest| ==> ([[s[0]] + rest[0]] + rest[1..])[i] == rest[i];
        [[s[0]] + rest[0]] + rest[1..]
  }

  /** `'.'.join(parts)`. */
  function JoinDot(parts: seq<string>): string {
    if |parts| == 0 then ""
    else if |parts| == 1 then parts[0]
    else parts[0] + "." + JoinDot(parts[1..])
  }

  /** Joining the pieces of a split gives back the string. */
  lemma {:induction false} JoinSplitDot(s: string)
    ensures JoinDot(SplitDot(s)) == s
  {
    if |s| > 0 {
      var rest := SplitDot(s[1..]);
      JoinSplitDot(s[1..]);
      if s[0] == '.' {
        assert ([""] + rest)[1..] == rest;
      } else {
        var parts := [[s[0]] + rest[0]] + rest[1..];
        assert parts[1..] == rest[1..];
        if |rest| > 1 {
          assert JoinDot(rest) == rest[0] + "." + JoinDot(rest[1..]);
        }
      }
    }
  }

  /** A string without dots is its own single piece. */
  lemma {:induction false} SplitDotNoDot(a: string)
    requires '.' !in a
    ensures SplitDot(a) == [a]
  {
    if |a| > 0 {
      assert '.' !in a[1..] by {
        forall i | 0 <= i < |a| - 1 ensures a[1..][i] != '.' { assert a[1..][i] == a[i + 1]; }
      }
      SplitDotNoDot(a[1..]);
      assert [a[0]] + a[1..] == a;
    }
  }

  /** Splitting `a.b` where `a` has no dot yields `a` followed by the pieces of `b`. */
  lemma {:induction false} SplitDotCons(a: string, b: string)
    requires '.' !in a
    ensures SplitDot(a + "." + b) == [a] + SplitDot(b)
  {
    var s := a + "." + b;
    if |a| == 0 {
      assert s[1..] == b;
    } else {
      assert s[1..] == a[1..] + "." + b;
      assert '.' !in a[1..] by {
        forall i | 0 <= i < |a| - 1 ensures a[1..][i] != '.' { assert a[1..][i] == a[i + 1]; }
      }
      SplitDotCons(a[1..], b);
      assert [a[0]] + a[1..] == a;
    }
  }

  /** Splitting `s.t` where `t` has no dot yields the pieces of `s` followed by `t`. */
  lemma {:induction false} SplitDotSnoc(s: string, t: string)
    requires '.' !in t
    ensures SplitDot(s + "." + t) == SplitDot(s) + [t]
  {
    var u := s + "." + t;
    if |s| == 0 {
      assert u[1..] == t;
      SplitDotNoDot(t);
    } else {
      assert u[1..] == s[1..] + "." + t;
      SplitDotSnoc(s[1..], t);
    }
  }

  /** Splitting a join of dot-free pieces gives back the pieces. */
  lemma {:induction false} SplitJoinDot(parts: seq<string>)
    requires |parts| >= 1
    requires forall i :: 0 <= i < |parts| ==> '.' !in parts[i]
    ensures SplitDot(JoinDot(parts)) == parts
  {
    if |parts| == 1 {
      SplitDotNoDot(parts[0]);
    } else {
      SplitJoinDot(parts[1..]);
      SplitDotCons(parts[0], JoinDot(parts[1..]));
    }
  }

  // ---------------------------------------------------------------------
  // int(str) and str(int)

  /** The whitespace `int()` skips around its numeral: the six ASCII
      whitespace characters (tab, line feed, vertical tab, form feed,
      carriage return, space) and every non-ASCII `str.isspace()` character.
      The separators U+001C to U+001F are `str.isspace()` but are not skipped. */
  predicate IsIntSpace(c: char) {
    ('\t' <= c <= '\r') || c == ' ' || (c > '\U{7F}' && IsSpace(c))
  }

  predicate AllIntSpace(s: string) { forall i :: 0 <= i < |s| ==> IsIntSpace(s[i]) }

  predicate NoIntSpace(s: string) { forall i :: 0 <= i < |s| ==> !IsIntSpace(s[i]) }

  /** Length of `s` without the trailing whitespace `int()` skips. */
  function IntTrimmedEnd(s: string): (m: nat)
    ensures m <= |s| && AllIntSpace(s[m..]) && (m > 0 ==> !IsIntSpace(s[m - 1]))
  {
    if |s| == 0 || !IsIntSpace(s[|s| - 1]) then |s|
    else
      var m := IntTrimmedEnd(s[..|s| - 1]);
      assert forall i :: m <= i < |s| - 1 ==> s[..|s| - 1][i] == s[i];
      m
  }

  /** Number of leading whitespace characters of `s` that `int()` skips. */
  function IntTrimmedStart(s: string): (k: nat)
    ensures k <= |s| && AllIntSpace(s[..k]) && (k < |s| ==> !IsIntSpace(s[k]))
  {
    if |s| == 0 || !IsIntSpace(s[0]) then 0 else 1 + IntTrimmedStart(s[1..])
  }

  /** The text `int()` reads: `s` without the leading and trailing
      whitespace that `int()` skips. */
  function IntStrip(s: string): (r: string)
    ensures exists k, m :: 0 <= k <= m <= |s| && AllIntSpace(s[..k]) && AllIntSpace(s[m..]) && r == s[k..m]
    ensures r == [] || (!IsIntSpace(r[0]) && !IsIntSpace(r[|r| - 1]))
    ensures NoIntSpace(s) ==> r == s
  {
    var k := IntTrimmedStart(s);
    var t := s[k..];
    var m := IntTrimmedEnd(t);
    assert NoIntSpace(s) ==> k == 0 && m == |t|;
    assert t[..m] == s[k..k + m] && s[k + m..] == t[m..];
    t[..m]
  }

  /** The digits that `int()` accepts after an optional sign: ASCII digits
      with single underscores between them (`[0-9](_?[0-9])*`). */
  predicate IsDigitGroups(t: string) {
    && |t| > 0 && IsDigit(t[0]) && IsDigit(t[|t| - 1])
    && (forall i :: 0 <= i < |t| ==> IsDigit(t[i]) || t[i] == '_')
    && (forall i :: 0 <= i < |t| - 1 ==> IsDigit(t[i]) || IsDigit(t[i + 1]))
  }

  /** The decimal value of the digits of `t`, underscores ignored. */
  function DigitsValue(t: string): nat {
    if |t| == 0 then 0
    else if IsDigit(t[|t| - 1]) then 10 * DigitsValue(t[..|t| - 1]) + (t[|t| - 1] as int - '0' as int)
    else DigitsValue(t[..|t| - 1])
  }

  /** `t` with its underscores removed. */
  function Unscored(t: string): string {
    if |t| == 0 then []
    else if t[|t| - 1] == '_' then Unscored(t[..|t| - 1])
    else Unscored(t[..|t| - 1]) + [t[|t| - 1]]
  }

  /** The underscores `int()` allows between digits do not change the value:
      it is the decimal value of the digits alone, and those digits form a
      plain numeral. */
  lemma {:induction false} UnderscoresIgnored(t: string)
    requires IsDigitGroups(t)
    ensures IsDigits(Unscored(t))
    ensures DigitsValue(t) == DigitsValue(Unscored(t))
  {
    UnscoredValue(t);
    UnscoredDigits(t);
  }

  lemma {:induction false} UnscoredValue(t: string)
    ensures DigitsValue(t) == DigitsValue(Unscored(t))
  {
    if |t| > 0 {
      var u := Unscored(t[..|t| - 1]);
      UnscoredValue(t[..|t| - 1]);
      if t[|t| - 1] != '_' {
        var v := u + [t[|t| - 1]];
        assert v[..|v| - 1] == u;
      }
    }
  }

  lemma {:induction false} UnscoredDigits(t: string)
    requires forall i :: 0 <= i < |t| ==> IsDigit(t[i]) || t[i] == '_'
    ensures forall i :: 0 <= i < |Unscored(t)| ==> IsDigit(Unscored(t)[i])
    ensures |t| > 0 && IsDigit(t[|t| - 1]) ==> |Unscored(t)| > 0
  {
    if |t| > 0 {
      var w := t[..|t| - 1];
      assert forall i :: 0 <= i < |w| ==> w[i] == t[i];
      UnscoredDigits(w);
    }
  }

  /** `int(s)`: None where Python raises ValueError. */
  function PyInt(s: string): (r: Option<int>)
    ensures r.Some? <==> var t := IntStrip(s);
      IsDigitGroups(t) || (|t| > 0 && (t[0] == '+' || t[0] == '-') && IsDigitGroups(t[1..]))
    ensures r.Some? ==> var t := IntStrip(s);
      r.value == if IsDigitGroups(t) then DigitsValue(t)
                 else if t[0] == '-' then -(DigitsValue(t[1..]) as int)
                 else DigitsValue(t[1..])
  {
    var t := IntStrip(s);
    if |t| > 0 && (t[0] == '+' || t[0] == '-') then
      var v: int := DigitsValue(t[1..]);
      if IsDigitGroups(t[1..]) then Some(if t[0] == '-' then -v else v)
      else None
    else if IsDigitGroups(t) then Some(DigitsValue(t))
    else None
  }

  /** A run of ASCII digits reads as its decimal value. */
  lemma DigitsAreInt(s: string)
    requires IsDigits(s)
    ensures PyInt(s) == Some(DigitsValue(s))
  {
    assert NoIntSpace(s) by {
      forall i | 0 <= i < |s| ensures !IsIntSpace(s[i]) { assert IsDigit(s[i]); }
    }
    assert IntStrip(s) == s;
    assert !(s[0] == '+' || s[0] == '-') by { assert IsDigit(s[0]); }
  }

  /** An information separator (U+001C to U+001F) is whitespace to
      `str.split()` but makes `int()` fail. */
  lemma SeparatorBreaksInt()
    ensures IsSpace('\U{1C}') && !IsIntSpace('\U{1C}')
    ensures PyInt("\U{1C}3") == None
  {
    var s := "\U{1C}3";
    assert NoIntSpace(s) by {
      forall i | 0 <= i < |s| ensures !IsIntSpace(s[i]) { }
    }
    assert IntStrip(s) == s;
  }

  function DigitChar(d: nat): (c: char)
    requires d < 10
    ensures IsDigit(c) && c as int - '0' as int == d
  {
    ('0' as int + d) as char
  }

  /** `str(n)` for a natural number. */
  function NatToString(n: nat): (r: string)
    ensures IsDigits(r)
  {
    if n < 10 then [DigitChar(n)] else NatToString(n / 10) + [DigitChar(n % 10)]
  }

  /** `str(n)`: a minus sign before the digits of a negative number. */
  function IntToString(n: int): (r: string)
    ensures '.' !in r
  {
    if n < 0 then "-" + NatToString(-n) else NatToString(n)
  }

  lemma {:induction false} NatToStringValue(n: nat)
    ensures DigitsValue(NatToString(n)) == n
  {
    if n >= 10 {
      NatToStringValue(n / 10);
      var x := NatToString(n / 10);
      var r := x + [DigitChar(n % 10)];
      assert r[..|r| - 1] == x;
    }
  }

  /** A minus sign before a run of ASCII digits reads as the negated value. */
  lemma NegatedDigitsAreInt(d: string)
    requires IsDigits(d)
    ensures PyInt("-" + d) == Some(-(DigitsValue(d) as int))
  {
    var s := "-" + d;
    assert NoIntSpace(s) by {
      forall i | 0 <= i < |s| ensures !IsIntSpace(s[i]) {
        if i > 0 { assert s[i] == d[i - 1]; assert IsDigit(d[i - 1]); }
      }
    }
    assert IntStrip(s) == s;
    assert s[0] == '-' && s[1..] == d;
    assert !IsDigitGroups(s) by { assert !IsDigit(s[0]); }
    DigitsAreGroups(d);
  }

  lemma DigitsAreGroups(d: string)
    requires IsDigits(d)
    ensures IsDigitGroups(d)
  {
  }

  /** `int(str(n)) == n` for every integer. */
  lemma IntToStringRoundTrip(n: int)
    ensures PyInt(IntToString(n)) == Some(n)
  {
    var m: nat := if n < 0 then -n else n;
    var d := NatToString(m);
    NatToStringValue(m);
    if n < 0 {
      assert IntToString(n) == "-" + d;
      NegatedDigitsAreInt(d);
    } else {
      assert IntToString(n) == d;
      DigitsAreInt(d);
    }
  }
}
