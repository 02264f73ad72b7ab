/** The built-in version comparator: dotted versions are split into
    segments read with `parseInt`, the shorter list is padded with zeros, and
    the difference at the first index where the segments differ is returned.
    A segment that does not parse is `NaN`, which differs from every number
    (itself included), so it makes the comparison `NaN`. */
module Internal {
  import opened Errors
  import opened Text

  /** A number the comparator can return. */
  datatype JsNum = Int(i: int) | NaN

  function Negate(n: JsNum): JsNum {
    match n
    case Int(i) => Int(-i)
    case NaN => NaN
  }

  /** `x.split('.').map((v) => parseInt(v))`, `None` standing for `NaN`. */
  function Segments(x: string): (r: seq<Option<int>>)
    ensures |r| == |Split(x, '.')|
  {
    var parts := Split(x, '.');
    seq(|parts|, i requires 0 <= i < |parts| => ParseInt(parts[i]))
  }

  /** Every segment of the version is a number. */
  predicate IsNumeric(x: string) {
    forall i :: 0 <= i < |Segments(x)| ==> Segments(x)[i].Some?
  }

  predicate AllSome(a: seq<Option<int>>) {
    forall i :: 0 <= i < |a| ==> a[i].Some?
  }

  function Zeros(n: nat): (r: seq<Option<int>>)
    ensures |r| == n && forall i :: 0 <= i < n ==> r[i] == Some(0)
  {
    seq(n, _ => Some(0))
  }

  /** `a.push(...Array(n - a.length).fill(0))`. */
  function PadTo(a: seq<Option<int>>, n: nat): (r: seq<Option<int>>)
    requires |a| <= n
    ensures |r| == n && r[..|a|] == a
    ensures forall i :: |a| <= i < n ==> r[i] == Some(0)
  {
    a + Zeros(n - |a|)
  }

  /** `a[i] !== b[i]` on two numbers. */
  predicate Differs(p: Option<int>, q: Option<int>) {
    p.None? || q.None? || p.value != q.value
  }

  /** `a[i] - b[i]`. */
  function Minus(p: Option<int>, q: Option<int>): (r: JsNum)
    ensures r.Int? <==> p.Some? && q.Some?
  {
    if p.Some? && q.Some? then Int(p.value - q.value) else NaN
  }

  /** The outcome of the comparison loop started at index `i`. */
  function CompareFrom(a: seq<Option<int>>, b: seq<Option<int>>, i: nat): JsNum
    requires |a| == |b| && i <= |a|
    decreases |a| - i
  {
    if i == |a| then Int(0)
    else if Differs(a[i], b[i]) then Minus(a[i], b[i])
    else CompareFrom(a, b, i + 1)
  }

  function Max(m: nat, n: nat): nat {
    if m < n then n else m
  }

  /** `builtInCmpSemVersion(x, y)` as a value. */
  function CmpSemVersion(x: string, y: string): JsNum {
    var a, b := Segments(x), Segments(y);
    var n := Max(|a|, |b|);
    CompareFrom(PadTo(a, n), PadTo(b, n), 0)
  }

  /** `builtInCmpSemVersion`: pads the shorter list in place, then scans
      with an early return. */
  method BuiltInCmpSemVersion(x: string, y: string) returns (r: JsNum)
    ensures r == CmpSemVersion(x, y)
  {
    var a := Segments(x);
    var b := Segments(y);
    if |a| < |b| {
      PadToSelf(b);
      a := PadTo(a, |b|);
    } else if |b| < |a| {
      PadToSelf(a);
      b := PadTo(b, |a|);
    } else {
      PadToSelf(a);
      PadToSelf(b);
    }
    r := ScanSegments(a, b);
  }

  /** The comparison loop over two lists of the same length. */
  method ScanSegments(a: seq<Option<int>>, b: seq<Option<int>>) returns (r: JsNum)
    requires |a| == |b|
    ensures r == CompareFrom(a, b, 0)
  {
    var i := 0;
    while i < |a|
      invariant 0 <= i <= |a|
      invariant CompareFrom(a, b, i) == CompareFrom(a, b, 0)
    {
      if Differs(a[i], b[i]) {
        return Minus(a[i], b[i]);
      }
      i := i + 1;
    }
    return Int(0);
  }

  lemma PadToSelf(a: seq<Option<int>>)
    ensures PadTo(a, |a|) == a
  {
    assert a + Zeros(0) == a;
  }

  // ---------------------------------------------------------------------
  // Properties of the scan on equal-length lists

  lemma {:induction false} CompareFromSelf(a: seq<Option<int>>, i: nat)
    requires i <= |a|
    ensures CompareFrom(a, a, i) == if forall j :: i <= j < |a| ==> a[j].Some? then Int(0) else NaN
    decreases |a| - i
  {
    if i < |a| {
      CompareFromSelf(a, i + 1);
    }
  }

  lemma {:induction false} CompareFromSwap(a: seq<Option<int>>, b: seq<Option<int>>, i: nat)
    requires |a| == |b| && i <= |a|
    ensures CompareFrom(a, b, i) == Negate(CompareFrom(b, a, i))
    decreases |a| - i
  {
    if i < |a| && !Differs(a[i], b[i]) {
      CompareFromSwap(a, b, i + 1);
    }
  }

  /** Appending the same zeros to both lists leaves the outcome unchanged. */
  lemma {:induction false} CompareFromZeros(a: seq<Option<int>>, b: seq<Option<int>>, k: nat, i: nat)
    requires |a| == |b| && i <= |a|
    ensures CompareFrom(a + Zeros(k), b + Zeros(k), i) == CompareFrom(a, b, i)
    decreases |a| - i
  {
    var a', b' := a + Zeros(k), b + Zeros(k);
    if i < |a| {
      assert a'[i] == a[i] && b'[i] == b[i];
      CompareFromZeros(a, b, k, i + 1);
    } else {
      CompareFromTail(a', b', i);
    }
  }

  lemma {:induction false} CompareFromTail(a: seq<Option<int>>, b: seq<Option<int>>, i: nat)
    requires |a| == |b| && i <= |a|
    requires forall j :: i <= j < |a| ==> a[j] == Some(0) && b[j] == Some(0)
    ensures CompareFrom(a, b, i) == Int(0)
    decreases |a| - i
  {
    if i < |a| {
      CompareFromTail(a, b, i + 1);
    }
  }

  /** Padding both lists further than needed changes nothing. */
  lemma PadFurther(a: seq<Option<int>>, b: seq<Option<int>>, n: nat, m: nat)
    requires |a| <= n && |b| <= n && n <= m
    ensures CompareFrom(PadTo(a, m), PadTo(b, m), 0) == CompareFrom(PadTo(a, n), PadTo(b, n), 0)
  {
    assert PadTo(a, m) == PadTo(a, n) + Zeros(m - n);
    assert PadTo(b, m) == PadTo(b, n) + Zeros(m - n);
    CompareFromZeros(PadTo(a, n), PadTo(b, n), m - n, 0);
  }

  /** On numbers, the scan is the lexicographic order: the outcome is a
      number, zero exactly when the lists are equal from `i` on, and
      negative exactly when the first difference from `i` on is smaller in
      `a`. */
  predicate LexLessFrom(a: seq<Option<int>>, b: seq<Option<int>>, i: nat)
    requires |a| == |b| && AllSome(a) && AllSome(b)
  {
    exists k :: i <= k < |a| && a[i..k] == b[i..k] && a[k].value < b[k].value
  }

  lemma {:induction false} CompareFromLex(a: seq<Option<int>>, b: seq<Option<int>>, i: nat)
    requires |a| == |b| && i <= |a| && AllSome(a) && AllSome(b)
    ensures CompareFrom(a, b, i).Int?
    ensures CompareFrom(a, b, i) == Int(0) <==> a[i..] == b[i..]
    ensures CompareFrom(a, b, i).i < 0 <==> LexLessFrom(a, b, i)
    decreases |a| - i
  {
    if i < |a| {
      CompareFromLex(a, b, i + 1);
      if Differs(a[i], b[i]) {
        assert a[i..][0] != b[i..][0];
        if a[i].value < b[i].value {
          assert a[i..i] == b[i..i];
        } else if LexLessFrom(a, b, i) {
          var k :| i <= k < |a| && a[i..k] == b[i..k] && a[k].value < b[k].value;
          if k > i {
            assert a[i..k][0] == b[i..k][0];
          }
        }
      } else {
        assert a[i] == b[i];
        if a[i + 1..] == b[i + 1..] {
          assert a[i..] == [a[i]] + a[i + 1..];
          assert b[i..] == [b[i]] + b[i + 1..];
        }
        if a[i..] == b[i..] {
          assert a[i + 1..] == a[i..][1..];
          assert b[i + 1..] == b[i..][1..];
        }
        if LexLessFrom(a, b, i + 1) {
          var k :| i + 1 <= k < |a| && a[i + 1..k] == b[i + 1..k] && a[k].value < b[k].value;
          assert a[i..k] == [a[i]] + a[i + 1..k];
          assert b[i..k] == [b[i]] + b[i + 1..k];
        }
        if LexLessFrom(a, b, i) {
          var k :| i <= k < |a| && a[i..k] == b[i..k] && a[k].value < b[k].value;
          assert k > i;
          assert a[i + 1..k] == a[i..k][1..];
          assert b[i + 1..k] == b[i..k][1..];
        }
      }
    }
  }

  /** The scan is transitive on numbers. */
  lemma {:induction false} CompareFromTransitive(a: seq<Option<int>>, b: seq<Option<int>>, c: seq<Option<int>>, i: nat)
    requires |a| == |b| == |c| && i <= |a| && AllSome(a) && AllSome(b) && AllSome(c)
    requires CompareFrom(a, b, i).Int? && CompareFrom(a, b, i).i <= 0
    requires CompareFrom(b, c, i).Int? && CompareFrom(b, c, i).i <= 0
    ensures CompareFrom(a, c, i).Int? && CompareFrom(a, c, i).i <= 0
    decreases |a| - i
  {
    if i < |a| && !Differs(a[i], b[i]) && !Differs(b[i], c[i]) {
      CompareFromTransitive(a, b, c, i + 1);
    }
  }

  // ---------------------------------------------------------------------
  // Properties of the comparator on version strings

  /** A version compares equal to itself exactly when it is numeric, and
      `NaN` otherwise. */
  lemma CmpReflexive(x: string)
    ensures CmpSemVersion(x, x) == if IsNumeric(x) then Int(0) else NaN
  {
    var a := Segments(x);
    assert PadTo(a, |a|) == a;
    CompareFromSelf(a, 0);
  }

  /** Swapping the arguments negates the result (and `NaN` stays `NaN`). */
  lemma CmpAntisymmetric(x: string, y: string)
    ensures CmpSemVersion(x, y) == Negate(CmpSemVersion(y, x))
  {
    var a, b := Segments(x), Segments(y);
    var n := Max(|a|, |b|);
    assert Max(|b|, |a|) == n;
    CompareFromSwap(PadTo(a, n), PadTo(b, n), 0);
  }

  /** A trailing `.0` does not change a version's place: `"1.2"` compares
      equal to `"1.2.0"`. */
  lemma CmpTrailingZero(x: string)
    requires IsNumeric(x)
    ensures CmpSemVersion(x, x + ".0") == Int(0)
  {
    var a := Segments(x);
    var b := Segments(x + ".0");
    SegmentsTrailingZero(x);
    assert AllSome(b) by {
      forall j | 0 <= j < |b| ensures b[j].Some? {
        if j < |a| { assert b[j] == a[j]; }
      }
    }
    assert PadTo(a, |b|) == b && PadTo(b, |b|) == b;
    assert CmpSemVersion(x, x + ".0") == CompareFrom(b, b, 0);
    CompareFromSelf(b, 0);
  }

  lemma SegmentsTrailingZero(x: string)
    ensures Segments(x + ".0") == Segments(x) + [Some(0)]
  {
    var p := Split(x, '.');
    var q := Split(x + ".0", '.');
    assert q == p + ["0"] by {
      SplitAppend(x, "0", '.');
      assert x + ".0" == x + ['.'] + "0";
    }
    var a := Segments(x);
    var b := Segments(x + ".0");
    var c := a + [Some(0)];
    assert |b| == |c|;
    forall i | 0 <= i < |b|
      ensures b[i] == c[i]
    {
      SegmentAt(p, q, a, b, i);
    }
    assert b == c;
  }

  lemma SegmentAt(p: seq<string>, q: seq<string>, a: seq<Option<int>>, b: seq<Option<int>>, i: nat)
    requires q == p + ["0"] && |a| == |p| && |b| == |q| && i < |b|
    requires forall k :: 0 <= k < |p| ==> a[k] == ParseInt(p[k])
    requires forall k :: 0 <= k < |q| ==> b[k] == ParseInt(q[k])
    ensures b[i] == (a + [Some(0)])[i]
  {
    if i < |p| {
      assert q[i] == p[i];
    } else {
      assert q[i] == "0";
      ParseIntZero();
    }
  }

  lemma {:induction false} SplitAppend(s: string, t: string, sep: char)
    requires sep !in t
    ensures Split(s + [sep] + t, sep) == Split(s, sep) + [t]
    decreases |s|
  {
    var u := s + [sep] + t;
    var i := IndexOf(s, sep);
    if i == |s| {
      assert IndexOf(u, sep) == |s| by {
        assert forall j :: 0 <= j < |s| ==> u[j] == s[j];
        assert u[|s|] == sep;
      }
      assert u[..|s|] == s && u[|s| + 1..] == t;
      assert IndexOf(t, sep) == |t|;
    } else {
      assert IndexOf(u, sep) == i by {
        assert forall j :: 0 <= j <= i ==> u[j] == s[j];
      }
      assert u[..i] == s[..i];
      assert u[i + 1..] == s[i + 1..] + [sep] + t;
      SplitAppend(s[i + 1..], t, sep);
    }
  }

  /** Strict "older than" under the comparator. */
  predicate Older(x: string, y: string) {
    CmpSemVersion(x, y).Int? && CmpSemVersion(x, y).i < 0
  }

  /** On numeric versions the comparator is lexicographic order on the
      zero-padded segment lists. */
  lemma CmpIsLexicographic(x: string, y: string)
    requires IsNumeric(x) && IsNumeric(y)
    ensures var n := Max(|Segments(x)|, |Segments(y)|);
            var a, b := PadTo(Segments(x), n), PadTo(Segments(y), n);
            CmpSemVersion(x, y).Int? &&
            (CmpSemVersion(x, y) == Int(0) <==> a == b) &&
            (Older(x, y) <==> LexLessFrom(a, b, 0))
  {
    var n := Max(|Segments(x)|, |Segments(y)|);
    var a, b := PadTo(Segments(x), n), PadTo(Segments(y), n);
    assert a[0..] == a && b[0..] == b;
    CompareFromLex(a, b, 0);
  }

  /** Both paddings of a pair compare the same once lifted to a common
      length. */
  lemma CmpAtLength(x: string, y: string, n: nat)
    requires |Segments(x)| <= n && |Segments(y)| <= n
    ensures CmpSemVersion(x, y) == CompareFrom(PadTo(Segments(x), n), PadTo(Segments(y), n), 0)
  {
    PadFurther(Segments(x), Segments(y), Max(|Segments(x)|, |Segments(y)|), n);
  }

  lemma PadAllSome(a: seq<Option<int>>, n: nat)
    requires |a| <= n && AllSome(a)
    ensures AllSome(PadTo(a, n))
  {
  }

  /** On numeric versions "not newer" is transitive. */
  lemma CmpTransitive(x: string, y: string, z: string)
    requires IsNumeric(x) && IsNumeric(y) && IsNumeric(z)
    requires !Older(y, x) && !Older(z, y)
    ensures !Older(z, x)
  {
    var n := Max(Max(|Segments(x)|, |Segments(y)|), |Segments(z)|);
    var a, b, c := PadTo(Segments(x), n), PadTo(Segments(y), n), PadTo(Segments(z), n);
    PadAllSome(Segments(x), n);
    PadAllSome(Segments(y), n);
    PadAllSome(Segments(z), n);
    CmpAtLength(x, y, n);
    CmpAtLength(y, z, n);
    CmpAtLength(x, z, n);
    CmpAntisymmetric(y, x);
    CmpAntisymmetric(z, y);
    CmpAntisymmetric(z, x);
    CompareFromLex(a, b, 0);
    CompareFromLex(b, c, 0);
    CompareFromTransitive(a, b, c, 0);
  }

  /** On numeric versions one of any two is not older than the other. */
  lemma CmpTotal(x: string, y: string)
    requires IsNumeric(x) && IsNumeric(y)
    ensures !Older(x, y) || !Older(y, x)
  {
    CmpAntisymmetric(x, y);
    CmpIsLexicographic(x, y);
  }

  // ---------------------------------------------------------------------
  // The last element of an ascending sort

  /** `versions.sort(cmp)` followed by taking the last element: the last of
      the greatest versions in list order. */
  function Greatest(vs: seq<string>): (r: string)
    requires |vs| >= 1
    ensures r in vs
  {
    if |vs| == 1 then vs[0]
    else
      var g := Greatest(vs[..|vs| - 1]);
      if Older(vs[|vs| - 1], g) then g else vs[|vs| - 1]
  }

  /** On numeric versions, no listed version is newer than `Greatest`. */
  lemma {:induction false} GreatestIsNewest(vs: seq<string>)
    requires |vs| >= 1
    requires forall i :: 0 <= i < |vs| ==> IsNumeric(vs[i])
    ensures forall v :: v in vs ==> !Older(Greatest(vs), v)
  {
    if |vs| > 1 {
      var init := vs[..|vs| - 1];
      assert vs == init + [vs[|vs| - 1]];
      GreatestIsNewest(init);
      GreatestStep(init, vs[|vs| - 1]);
    } else {
      CmpReflexive(vs[0]);
    }
  }

  lemma GreatestStep(init: seq<string>, last: string)
    requires |init| >= 1
    requires forall i :: 0 <= i < |init| ==> IsNumeric(init[i])
    requires IsNumeric(last)
    requires forall v :: v in init ==> !Older(Greatest(init), v)
    ensures forall v :: v in init + [last] ==> !Older(Greatest(init + [last]), v)
  {
    var vs := init + [last];
    assert vs[..|vs| - 1] == init && vs[|vs| - 1] == last;
    var h := Greatest(init);
    var g := Greatest(vs);
    assert IsNumeric(h);
    forall v | v in vs
      ensures !Older(g, v)
    {
      if v in init {
        assert IsNumeric(v);
        if Older(last, h) {
          assert g == h;
        } else {
          assert g == last;
          CmpTransitive(v, h, last);
        }
      } else {
        assert v == last;
        if Older(last, h) {
          CmpTotal(last, h);
        } else {
          CmpReflexive(last);
        }
      }
    }
  }
}
