/**
 * String helpers the merge engine relies on: the decimal rendering used by
 * `fmt.Sprintf("%s_v%d", k, i)` for rename candidates, the pieces of `%s`
 * that the GVK sort key needs, and Go's byte-wise string ordering used when
 * the GVK list is sorted.
 */
module Strings {

  /** The character of decimal digit `d`. */
  function DigitChar(d: nat): (c: char)
    requires d < 10
    ensures '0' <= c <= '9'
  {
    (48 + d) as char
  }

  /** Decimal rendering of a natural number, as `%d` prints it. */
  function NatToString(n: nat): (s: string)
    ensures |s| >= 1
    ensures forall i :: 0 <= i < |s| ==> '0' <= s[i] <= '9'
    ensures n < 10 <==> |s| == 1
  {
    if n < 10 then [DigitChar(n)] else NatToString(n / 10) + [DigitChar(n % 10)]
  }

  /** Decimal rendering of an integer, with a leading minus sign when it is negative. */
  function IntToString(n: int): string
  {
    if n < 0 then "-" + NatToString(-n) else NatToString(n)
  }

  /**
   * `%v` of a float64 holding the integer `n`, as `strconv.FormatFloat(f, 'g', -1, 64)`
   * prints it: plain digits below 10^6, and from there on the shortest mantissa
   * with an exponent of at least two digits (`1e+06`, `1.5e+07`).
   */
  function FloatString(n: int): string
  {
    if n < 0 then "-" + NatFloatString(-n) else NatFloatString(n)
  }

  function NatFloatString(n: nat): string
  {
    if n < 1000000 then NatToString(n)
    else
      var d := NatToString(n);
      var t := TrimZeros(d);
      var e := |d| - 1;
      [t[0]] + (if |t| > 1 then "." + t[1..] else "") + "e+" + (if e < 10 then "0" else "") + NatToString(e)
  }

  lemma MillionDigits()
    ensures NatToString(1000000) == "1000000"
  {
  }

  lemma MillionTrimmed()
    ensures TrimZeros("1000000") == "1"
  {
  }

  /** A float64 of a million prints in exponent form, not as its decimal digits. */
  lemma FloatStringExponent()
    ensures FloatString(1000000) == "1e+06"
    ensures FloatString(1000000) != IntToString(1000000)
  {
    MillionDigits();
    MillionTrimmed();
  }

  /** `d` without its trailing zeros, keeping at least one digit. */
  function TrimZeros(d: string): (t: string)
    requires |d| >= 1
    ensures 1 <= |t| <= |d| && t == d[..|t|]
    ensures |t| == 1 || t[|t| - 1] != '0'
    ensures forall i :: |t| <= i < |d| ==> d[i] == '0'
  {
    if |d| > 1 && d[|d| - 1] == '0' then TrimZeros(d[..|d| - 1]) else d
  }

  /** The strings of `parts` separated by single spaces, as `fmt` prints list and map elements. */
  function Join(parts: seq<string>): string
  {
    if parts == [] then "" else if |parts| == 1 then parts[0] else parts[0] + " " + Join(parts[1..])
  }

  /** `m` is the least string of `s`. */
  predicate IsLeast(m: string, s: set<string>)
  {
    m in s && forall x :: x in s ==> StrLeq(m, x)
  }

  lemma {:induction false} LeastExists(s: set<string>)
    requires s != {}
    ensures exists m :: IsLeast(m, s)
    decreases s
  {
    var x :| x in s;
    if s == {x} {
      assert IsLeast(x, s);
    } else {
      LeastExists(s - {x});
      var m :| IsLeast(m, s - {x});
      StrLeqTotal(m, x);
      if StrLeq(m, x) {
        assert IsLeast(m, s);
      } else {
        forall y | y in s ensures StrLeq(x, y) {
          if y != x {
            StrLeqTransitive(x, m, y);
          }
        }
        assert IsLeast(x, s);
      }
    }
  }

  lemma LeastUnique(s: set<string>)
    ensures forall a, b :: IsLeast(a, s) && IsLeast(b, s) ==> a == b
  {
    forall a, b | IsLeast(a, s) && IsLeast(b, s) ensures a == b {
      if a != b {
        StrLessAsymmetric(a, b);
      }
    }
  }

  /** The strings of `s` in increasing order, the order `fmt` prints map keys in. */
  function SortedKeys(s: set<string>): (r: seq<string>)
    ensures forall k :: k in r <==> k in s
    ensures forall i, j :: 0 <= i < j < |r| ==> StrLess(r[i], r[j])
    decreases s
  {
    if s == {} then []
    else
      LeastExists(s);
      LeastUnique(s);
      var m :| IsLeast(m, s);
      var rest := SortedKeys(s - {m});
      assert forall j :: 0 <= j < |rest| ==> StrLess(m, rest[j]) by {
        forall j | 0 <= j < |rest| ensures StrLess(m, rest[j]) {
          assert rest[j] in s && rest[j] != m;
        }
      }
      [m] + rest
  }

  /** Distinct numbers print differently. */
  lemma {:induction false} NatToStringInjective(a: nat, b: nat)
    requires NatToString(a) == NatToString(b)
    ensures a == b
  {
    if a >= 10 && b >= 10 {
      var sa, sb := NatToString(a), NatToString(b);
      assert sa[..|sa| - 1] == NatToString(a / 10);
      assert sb[..|sb| - 1] == NatToString(b / 10);
      NatToStringInjective(a / 10, b / 10);
      assert sa[|sa| - 1] == DigitChar(a % 10);
      assert sb[|sb| - 1] == DigitChar(b % 10);
    }
  }

  /** The name `k_vI` that the conflict renaming tries for iteration `i`. */
  function VersionedName(k: string, i: nat): (r: string)
    ensures |r| > |k| + 2 && r[..|k|] == k && r[|k|] == '_' && r[|k| + 1] == 'v'
    ensures forall j :: |k| + 2 <= j < |r| ==> '0' <= r[j] <= '9'
  {
    var d := NatToString(i);
    var r := k + "_v" + d;
    assert forall j :: |k| + 2 <= j < |r| ==> r[j] == d[j - |k| - 2];
    r
  }

  /** Different iterations of one name produce different candidates. */
  lemma VersionedNameInjective(k: string, i: nat, j: nat)
    requires VersionedName(k, i) == VersionedName(k, j)
    ensures i == j
  {
    var a, b := VersionedName(k, i), VersionedName(k, j);
    assert a[|k| + 2..] == NatToString(i);
    assert b[|k| + 2..] == NatToString(j);
    NatToStringInjective(i, j);
  }

  /**
   * Candidates of two different names never coincide: the last `_v`
   * before the digits fixes where the original name ends.
   */
  lemma VersionedNamesDisjoint(k1: string, k2: string, i: nat, j: nat)
    requires k1 != k2
    ensures VersionedName(k1, i) != VersionedName(k2, j)
  {
    var a, b := VersionedName(k1, i), VersionedName(k2, j);
    if |a| == |b| {
      if |k1| == |k2| {
        assert a[..|k1|] != b[..|k1|];
      } else if |k1| < |k2| {
        assert a[|k2|] != b[|k2|];
      } else {
        assert a[|k1|] != b[|k1|];
      }
    }
  }

  /** Go's `<` on strings: lexicographic by character. */
  predicate StrLess(a: string, b: string)
    decreases |a|
  {
    if |a| == 0 then |b| > 0
    else if |b| == 0 then false
    else if a[0] != b[0] then a[0] < b[0]
    else StrLess(a[1..], b[1..])
  }

  predicate StrLeq(a: string, b: string)
  {
    a == b || StrLess(a, b)
  }

  lemma {:induction false} StrLessIrreflexive(a: string)
    ensures !StrLess(a, a)
  {
    if |a| > 0 {
      StrLessIrreflexive(a[1..]);
    }
  }

  lemma {:induction false} StrLessTotal(a: string, b: string)
    requires a != b
    ensures StrLess(a, b) || StrLess(b, a)
  {
    if |a| > 0 && |b| > 0 && a[0] == b[0] {
      assert a == [a[0]] + a[1..] && b == [b[0]] + b[1..];
      StrLessTotal(a[1..], b[1..]);
    }
  }

  lemma {:induction false} StrLessAsymmetric(a: string, b: string)
    requires StrLess(a, b)
    ensures !StrLess(b, a)
  {
    if |a| > 0 && |b| > 0 && a[0] == b[0] {
      StrLessAsymmetric(a[1..], b[1..]);
    }
  }

  lemma {:induction false} StrLessTransitive(a: string, b: string, c: string)
    requires StrLess(a, b) && StrLess(b, c)
    ensures StrLess(a, c)
  {
    if |a| > 0 && a[0] == b[0] && b[0] == c[0] {
      StrLessTransitive(a[1..], b[1..], c[1..]);
    }
  }

  lemma StrLeqTransitive(a: string, b: string, c: string)
    requires StrLeq(a, b) && StrLeq(b, c)
    ensures StrLeq(a, c)
  {
    if a != b && b != c {
      StrLessTransitive(a, b, c);
    }
  }

  lemma StrLeqTotal(a: string, b: string)
    ensures StrLeq(a, b) || StrLeq(b, a)
  {
    if a != b {
      StrLessTotal(a, b);
    }
  }
}
