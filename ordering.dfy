/**
 * The natural order on names (Java's `String.compareTo`): lexicographic on the
 * UTF-16 code units of the names, a proper prefix before every extension. On top
 * of it, the two sorting helpers the builder relies on: sorting a set of names
 * into a list (`Utils.sortedCopy`) and sorting a list in place (`Collections.sort`).
 */
module StringOrder {

  /**
   * The UTF-16 code units of one character, as a Java string holds it: the
   * character itself below U+10000, otherwise a high surrogate followed by a
   * low surrogate.
   */
  function CodeUnits(c: char): (r: seq<int>)
    ensures 1 <= |r| <= 2
    ensures forall i :: 0 <= i < |r| ==> 0 <= r[i] < 0x1_0000
  {
    var n := c as int;
    if n < 0x1_0000 then [n]
    else [0xD800 + (n - 0x1_0000) / 0x400, 0xDC00 + (n - 0x1_0000) % 0x400]
  }

  /** The UTF-16 encoding of a name: the `char` sequence of the Java string. */
  function Utf16(s: string): seq<int> {
    if |s| == 0 then [] else CodeUnits(s[0]) + Utf16(s[1..])
  }

  /** `String.compareTo(u, v) < 0` on code-unit sequences: the first differing unit decides, a proper prefix comes first. */
  predicate UnitsLess(u: seq<int>, v: seq<int>)
    decreases |u|
  {
    if |u| == 0 then |v| > 0
    else |v| > 0 && (u[0] < v[0] || (u[0] == v[0] && UnitsLess(u[1..], v[1..])))
  }

  /**
   * The place of a character in code-unit order. Characters above U+FFFF start
   * with a surrogate (0xD800-0xDBFF), so they sort after U+D7FF and before U+E000.
   */
  function Rank(c: char): int {
    var n := c as int;
    if n < 0xD800 || 0x1_0000 <= n then n else n + 0x11_0000
  }

  /** `a` sorts strictly before `b`: character by character, by `Rank`. */
  predicate Less(a: string, b: string)
    decreases |a|
  {
    if |a| == 0 then |b| > 0
    else |b| > 0 && (Rank(a[0]) < Rank(b[0]) || (a[0] == b[0] && Less(a[1..], b[1..])))
  }

  predicate LessOrEqual(a: string, b: string) {
    a == b || Less(a, b)
  }

  lemma {:induction false} LessIrreflexive(a: string)
    ensures !Less(a, a)
  {
    if |a| > 0 {
      LessIrreflexive(a[1..]);
    }
  }

  lemma {:induction false} LessAsymmetric(a: string, b: string)
    requires Less(a, b)
    ensures !Less(b, a)
  {
    if |a| > 0 && a[0] == b[0] {
      LessAsymmetric(a[1..], b[1..]);
    }
  }

  lemma {:induction false} LessTransitive(a: string, b: string, c: string)
    requires Less(a, b) && Less(b, c)
    ensures Less(a, c)
  {
    if |a| > 0 && a[0] == b[0] && b[0] == c[0] {
      LessTransitive(a[1..], b[1..], c[1..]);
    }
  }

  lemma {:induction false} LessTotal(a: string, b: string)
    requires a != b
    ensures Less(a, b) || Less(b, a)
  {
    if |a| > 0 && |b| > 0 && a[0] == b[0] {
      assert a == [a[0]] + a[1..] && b == [b[0]] + b[1..];
      LessTotal(a[1..], b[1..]);
    }
  }

  /** A common prefix does not decide the order. */
  lemma {:induction false} UnitsLessCommonPrefix(p: seq<int>, u: seq<int>, v: seq<int>)
    ensures UnitsLess(p + u, p + v) <==> UnitsLess(u, v)
  {
    if |p| > 0 {
      assert (p + u)[1..] == p[1..] + u && (p + v)[1..] == p[1..] + v;
      UnitsLessCommonPrefix(p[1..], u, v);
    } else {
      assert p + u == u && p + v == v;
    }
  }

  /** Two different characters differ within their own code units, and there in `Rank` order. */
  lemma CharsDecide(x: char, y: char, u: seq<int>, v: seq<int>)
    requires x != y
    ensures UnitsLess(CodeUnits(x) + u, CodeUnits(y) + v) <==> Rank(x) < Rank(y)
  {
    var nx, ny := x as int, y as int;
    var xs, ys := CodeUnits(x) + u, CodeUnits(y) + v;
    assert xs[0] == CodeUnits(x)[0] && ys[0] == CodeUnits(y)[0];
    if nx >= 0x1_0000 && ny >= 0x1_0000 {
      var hx, lx := (nx - 0x1_0000) / 0x400, (nx - 0x1_0000) % 0x400;
      var hy, ly := (ny - 0x1_0000) / 0x400, (ny - 0x1_0000) % 0x400;
      assert nx == 0x1_0000 + 0x400 * hx + lx && ny == 0x1_0000 + 0x400 * hy + ly;
      assert xs[1..][0] == 0xDC00 + lx && ys[1..][0] == 0xDC00 + ly;
      if hx == hy {
        assert lx != ly;
      }
    }
  }

  /** The order is Java's: `Less` holds exactly when the UTF-16 encodings compare below. */
  lemma {:induction false} LessIsUtf16Order(a: string, b: string)
    ensures Less(a, b) <==> UnitsLess(Utf16(a), Utf16(b))
  {
    if |a| > 0 && |b| > 0 {
      if a[0] == b[0] {
        UnitsLessCommonPrefix(CodeUnits(a[0]), Utf16(a[1..]), Utf16(b[1..]));
        LessIsUtf16Order(a[1..], b[1..]);
      } else {
        CharsDecide(a[0], b[0], Utf16(a[1..]), Utf16(b[1..]));
      }
    }
  }

  /** A character above U+FFFF sorts before one of U+E000-U+FFFF, as its high surrogate is smaller. */
  lemma SupplementaryBeforeHighBmp()
    ensures Less("\U{1D504}", "\U{FF21}")
    ensures UnitsLess(Utf16("\U{1D504}"), Utf16("\U{FF21}"))
  {
    LessIsUtf16Order("\U{1D504}", "\U{FF21}");
  }

  /** Sorted with no name twice: the shape of every list the queries return. */
  predicate StrictlySorted(s: seq<string>) {
    forall i, j :: 0 <= i < j < |s| ==> Less(s[i], s[j])
  }

  /** Sorted, repeats allowed. */
  predicate Sorted(s: seq<string>) {
    forall i, j :: 0 <= i < j < |s| ==> LessOrEqual(s[i], s[j])
  }

  predicate IsMinimum(m: string, s: set<string>) {
    m in s && forall y | y in s :: LessOrEqual(m, y)
  }

  lemma {:induction false} MinimumExists(s: set<string>)
    requires s != {}
    ensures exists m :: IsMinimum(m, s)
    decreases |s|
  {
    var x :| x in s;
    var rest := s - {x};
    if rest == {} {
      assert s == {x};
      assert IsMinimum(x, s);
    } else {
      MinimumExists(rest);
      var m :| IsMinimum(m, rest);
      if Less(x, m) {
        forall y | y in s ensures LessOrEqual(x, y) {
          if y != x {
            assert LessOrEqual(m, y);
            if y != m { LessTransitive(x, m, y); }
          }
        }
        assert IsMinimum(x, s);
      } else {
        LessTotal(x, m);
        assert IsMinimum(m, s);
      }
    }
  }

  lemma MinimumIsUnique(s: set<string>)
    ensures forall m1, m2 :: IsMinimum(m1, s) && IsMinimum(m2, s) ==> m1 == m2
  {
    forall m1, m2 | IsMinimum(m1, s) && IsMinimum(m2, s) ensures m1 == m2 {
      if m1 != m2 {
        assert Less(m1, m2);
        LessAsymmetric(m1, m2);
      }
    }
  }

  /** `Utils.sortedCopy`: the names of `s`, sorted, each once. */
  function SortedCopy(s: set<string>): (r: seq<string>)
    ensures StrictlySorted(r)
    ensures |r| == |s|
    ensures forall x :: x in r <==> x in s
    decreases |s|
  {
    if s == {} then []
    else
      MinimumExists(s);
      MinimumIsUnique(s);
      var m :| IsMinimum(m, s);
      var rest := SortedCopy(s - {m});
      MinimumBeforeRest(m, s, rest);
      [m] + rest
  }

  lemma MinimumBeforeRest(m: string, s: set<string>, rest: seq<string>)
    requires IsMinimum(m, s) && StrictlySorted(rest)
    requires forall x :: x in rest <==> x in s - {m}
    ensures StrictlySorted([m] + rest)
  {
    forall j | 0 <= j < |rest| ensures Less(m, rest[j]) {
      assert rest[j] in s - {m};
    }
  }

  /** Inserting into a sorted list, the step of `Sort`. */
  function Insert(x: string, s: seq<string>): (r: seq<string>)
    requires Sorted(s)
    ensures Sorted(r)
    ensures multiset(r) == multiset(s) + multiset{x}
  {
    if s == [] then [x]
    else if LessOrEqual(x, s[0]) then
      InsertFront(x, s);
      [x] + s
    else
      LessTotal(x, s[0]);
      var t := Insert(x, s[1..]);
      InsertBehind(x, s, t);
      [s[0]] + t
  }

  lemma InsertFront(x: string, s: seq<string>)
    requires Sorted(s) && s != [] && LessOrEqual(x, s[0])
    ensures Sorted([x] + s)
  {
    forall j | 0 <= j < |s| ensures LessOrEqual(x, s[j]) {
      if x != s[0] && s[0] != s[j] { LessTransitive(x, s[0], s[j]); }
    }
  }

  lemma InsertBehind(x: string, s: seq<string>, t: seq<string>)
    requires Sorted(s) && s != [] && Less(s[0], x)
    requires Sorted(t) && multiset(t) == multiset(s[1..]) + multiset{x}
    ensures Sorted([s[0]] + t)
    ensures multiset([s[0]] + t) == multiset(s) + multiset{x}
  {
    assert s == [s[0]] + s[1..];
    forall j | 0 <= j < |t| ensures LessOrEqual(s[0], t[j]) {
      assert t[j] in multiset(t);
      if t[j] != x {
        assert t[j] in multiset(s[1..]);
        var k :| 0 <= k < |s[1..]| && s[1..][k] == t[j];
        assert s[k + 1] == t[j];
      }
    }
  }

  /** `Collections.sort` on a list of names: a sorted permutation of it. */
  function Sort(s: seq<string>): (r: seq<string>)
    ensures Sorted(r)
    ensures multiset(r) == multiset(s)
  {
    if s == [] then []
    else
      assert s == [s[0]] + s[1..];
      Insert(s[0], Sort(s[1..]))
  }

  predicate NoDuplicates(s: seq<string>) {
    forall i, j :: 0 <= i < j < |s| ==> s[i] != s[j]
  }

  /** Two strictly sorted lists holding the same names are the same list. */
  lemma {:induction false} StrictlySortedUnique(a: seq<string>, b: seq<string>)
    requires StrictlySorted(a) && StrictlySorted(b)
    requires forall x :: x in a <==> x in b
    ensures a == b
  {
    assert a != [] ==> a[0] in b;
    assert b != [] ==> b[0] in a;
    if a != [] && b != [] {
      assert a == [a[0]] + a[1..] && b == [b[0]] + b[1..];
      if a[0] != b[0] {
        assert b[0] in a;
        var i :| 0 <= i < |a| && a[i] == b[0];
        assert a[0] in b;
        var j :| 0 <= j < |b| && b[j] == a[0];
        assert Less(a[0], b[0]);
        assert Less(b[0], a[0]);
        LessAsymmetric(a[0], b[0]);
      }
      assert a[0] == b[0];
      LessIrreflexive(a[0]);
      forall x | x in a[1..] ensures x in b[1..] {
        var i :| 1 <= i < |a| && a[i] == x;
        assert x != a[0] && x in a;
        var j :| 0 <= j < |b| && b[j] == x;
        assert b[1..][j - 1] == x;
      }
      forall x | x in b[1..] ensures x in a[1..] {
        var j :| 1 <= j < |b| && b[j] == x;
        assert x != b[0] && x in b;
        var i :| 0 <= i < |a| && a[i] == x;
        assert a[1..][i - 1] == x;
      }
      StrictlySortedUnique(a[1..], b[1..]);
    }
  }

  /** A list without repeats, once sorted, is the sorted copy of its names. */
  lemma SortOfDistinct(s: seq<string>)
    requires NoDuplicates(s)
    ensures Sort(s) == SortedCopy(set x | x in s)
  {
    var r := Sort(s);
    forall x ensures multiset(r)[x] <= 1 {
      MultiplicityAtMostOne(s, x);
    }
    SortedWithoutRepeats(r);
    forall x ensures x in r <==> x in (set y | y in s) {
      assert x in r <==> x in multiset(r);
      assert x in s <==> x in multiset(s);
    }
    StrictlySortedUnique(r, SortedCopy(set x | x in s));
  }

  lemma SortedWithoutRepeats(r: seq<string>)
    requires Sorted(r)
    requires forall x :: multiset(r)[x] <= 1
    ensures StrictlySorted(r)
  {
    forall i, j | 0 <= i < j < |r| ensures Less(r[i], r[j]) {
      RepeatCountsTwice(r, i, j);
    }
  }

  lemma RepeatCountsTwice(r: seq<string>, i: nat, j: nat)
    requires i < j < |r|
    ensures r[i] == r[j] ==> multiset(r)[r[i]] >= 2
  {
    assert r == r[..j] + r[j..];
    assert r[..j][i] == r[i];
    assert r[j..][0] == r[j];
    assert multiset(r) == multiset(r[..j]) + multiset(r[j..]);
  }

  lemma {:induction false} MultiplicityAtMostOne(s: seq<string>, x: string)
    requires NoDuplicates(s)
    ensures multiset(s)[x] <= 1
  {
    if s != [] {
      assert s == [s[0]] + s[1..];
      MultiplicityAtMostOne(s[1..], x);
      if s[0] == x {
        assert x !in s[1..];
      }
    }
  }

}
