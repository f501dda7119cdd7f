/** The pieces of Python's built-in `str` that the checker relies on:
    substring search (`p in s`, `s.split(p, 1)`), splitting on one
    character (`s.split(',')`), `strip()`, `', '.join(...)` and the
    code-point order that `sorted()` uses on strings. */
module Text {

  datatype Option<T> = None | Some(value: T)

  /** Python's `str.isspace()` for a single code point. */
  predicate IsSpace(c: char) {
    var k := c as int;
    (9 <= k <= 13) || (28 <= k <= 32) || k == 0x85 || k == 0xA0 || k == 0x1680
    || (0x2000 <= k <= 0x200A) || k == 0x2028 || k == 0x2029 || k == 0x202F
    || k == 0x205F || k == 0x3000
  }

  // ---------------------------------------------------------------------------
  // Substring search

  /** `p` occurs in `s` starting at index `i`. */
  predicate OccursAt(s: string, p: string, i: int) {
    0 <= i && i + |p| <= |s| && s[i..i + |p|] == p
  }

  /** The index of the first occurrence of `p` in `s`, as `str.find` reports it. */
  function IndexOf(s: string, p: string): (r: Option<nat>)
    ensures r.Some? ==> OccursAt(s, p, r.value)
    ensures r.Some? ==> forall j :: 0 <= j < r.value ==> !OccursAt(s, p, j)
    ensures r.None? ==> forall j :: !OccursAt(s, p, j)
    decreases |s|
  {
    if |s| < |p| then None
    else if p <= s then Some(0)
    else
      var rest := IndexOf(s[1..], p);
      assert forall j :: OccursAt(s, p, j + 1) <==> OccursAt(s[1..], p, j) by {
        forall j ensures OccursAt(s, p, j + 1) <==> OccursAt(s[1..], p, j) {
          if 0 <= j && j + 1 + |p| <= |s| {
            assert s[1..][j..j + |p|] == s[j + 1..j + 1 + |p|];
          }
        }
      }
      assert !OccursAt(s, p, 0);
      match rest
      case None =>
        assert forall j :: !OccursAt(s, p, j) by {
          forall j ensures !OccursAt(s, p, j) {
            if j > 0 { assert !OccursAt(s[1..], p, j - 1); }
          }
        }
        None
      case Some(i) =>
        assert forall j :: 0 <= j < i + 1 ==> !OccursAt(s, p, j) by {
          forall j | 0 <= j < i + 1 ensures !OccursAt(s, p, j) {
            if j > 0 { assert !OccursAt(s[1..], p, j - 1); }
          }
        }
        Some(i + 1)
  }

  /** Python's `p in s`. */
  predicate Contains(s: string, p: string) {
    IndexOf(s, p).Some?
  }

  /** `s.split(p, 1)[1]`: the text after the first occurrence of `p`. */
  function After(s: string, p: string): (r: string)
    requires Contains(s, p)
    ensures |r| + |p| <= |s| && r == s[|s| - |r|..]
    ensures OccursAt(s, p, |s| - |r| - |p|)
    ensures forall j :: 0 <= j < |s| - |r| - |p| ==> !OccursAt(s, p, j)
  {
    s[IndexOf(s, p).value + |p|..]
  }

  /** An occurrence makes `Contains` true, and the first occurrence is no later. */
  lemma OccurrenceFound(s: string, p: string, m: int)
    requires OccursAt(s, p, m)
    ensures Contains(s, p) && IndexOf(s, p).value <= m
  {
  }

  /** An occurrence of `q` that starts after the first `p` ends is found after it. */
  lemma OccursAfter(s: string, p: string, q: string, k: int)
    requires Contains(s, p) && OccursAt(s, q, k) && k >= IndexOf(s, p).value + |p|
    ensures Contains(After(s, p), q)
  {
    var h := IndexOf(s, p).value;
    var r := After(s, p);
    assert r == s[h + |p|..];
    var j := k - (h + |p|);
    assert 0 <= j && j + |q| <= |r|;
    forall x | 0 <= x < |q| ensures r[j + x] == q[x] {
      assert r[j + x] == s[k + x];
      assert s[k..k + |q|][x] == s[k + x];
    }
    assert r[j..j + |q|] == q;
    assert OccursAt(r, q, j);
    OccurrenceFound(r, q, j);
  }

  /** An occurrence of `p` inside an occurrence of `q` is an occurrence in `s`. */
  lemma OccursWithin(s: string, q: string, p: string, m: int, k: int)
    requires OccursAt(s, q, m) && OccursAt(q, p, k)
    ensures OccursAt(s, p, m + k)
  {
    forall i | 0 <= i < |p| ensures s[m + k + i] == p[i] {
      assert s[m..m + |q|][k + i] == q[k + i];
      assert q[k..k + |p|][i] == q[k + i];
    }
    assert s[m + k..m + k + |p|] == p;
  }

  // ---------------------------------------------------------------------------
  // Splitting on one character and joining

  /** `s.split(sep)` for a one-character separator: every maximal
      separator-free piece, empty pieces included, so there is always one
      more piece than there are separators. */
  function Split(s: string, sep: char): (r: seq<string>)
    ensures |r| >= 1
    ensures forall k :: 0 <= k < |r| ==> sep !in r[k]
    decreases |s|
  {
    if s == [] then [""]
    else if s[0] == sep then [""] + Split(s[1..], sep)
    else
      var rest := Split(s[1..], sep);
      [[s[0]] + rest[0]] + rest[1..]
  }

  /** `sep.join(parts)`. */
  function Join(parts: seq<string>, sep: string): string
    decreases |parts|
  {
    if parts == [] then ""
    else if |parts| == 1 then parts[0]
    else parts[0] + sep + Join(parts[1..], sep)
  }

  /** Splitting and re-joining with the same separator gives back the text. */
  lemma {:induction false} JoinSplit(s: string, sep: char)
    ensures Join(Split(s, sep), [sep]) == s
    decreases |s|
  {
    if s == [] {
    } else if s[0] == sep {
      JoinSplit(s[1..], sep);
      assert s == [sep] + s[1..];
    } else {
      JoinSplit(s[1..], sep);
      var rest := Split(s[1..], sep);
      if |rest| == 1 {
        assert s == [s[0]] + s[1..];
      } else {
        assert Join(rest, [sep]) == rest[0] + [sep] + Join(rest[1..], [sep]);
        assert s == [s[0]] + s[1..];
      }
    }
  }

  /** Joining separator-free pieces and splitting again gives back the pieces. */
  lemma {:induction false} SplitJoin(parts: seq<string>, sep: char)
    requires |parts| >= 1
    requires forall k :: 0 <= k < |parts| ==> sep !in parts[k]
    ensures Split(Join(parts, [sep]), sep) == parts
    decreases |parts|, |parts[0]|
  {
    var p0 := parts[0];
    if p0 == [] {
      if |parts| == 1 {
      } else {
        SplitJoin(parts[1..], sep);
        assert Join(parts, [sep]) == [sep] + Join(parts[1..], [sep]);
        assert ([sep] + Join(parts[1..], [sep]))[1..] == Join(parts[1..], [sep]);
      }
    } else {
      var shorter := [p0[1..]] + parts[1..];
      forall k | 0 <= k < |shorter| ensures sep !in shorter[k] {
        if k == 0 {
          assert forall c :: c in p0[1..] ==> c in p0;
        } else {
          assert shorter[k] == parts[k];
        }
      }
      SplitJoin(shorter, sep);
      var joined := Join(parts, [sep]);
      if |parts| == 1 {
        assert joined == [p0[0]] + p0[1..];
        assert joined[1..] == Join(shorter, [sep]);
      } else {
        assert joined == [p0[0]] + (p0[1..] + [sep] + Join(parts[1..], [sep]));
        assert Join(shorter, [sep]) == p0[1..] + [sep] + Join(parts[1..], [sep]);
        assert joined[1..] == Join(shorter, [sep]);
      }
      assert joined[0] == p0[0] && joined[0] != sep;
      assert [p0[0]] + p0[1..] == p0;
    }
  }

  // ---------------------------------------------------------------------------
  // strip()

  /** `s.lstrip()`. */
  function StripStart(s: string): (r: string)
    ensures |r| <= |s| && r == s[|s| - |r|..]
    ensures forall k :: 0 <= k < |s| - |r| ==> IsSpace(s[k])
    ensures r == [] || !IsSpace(r[0])
  {
    if s != [] && IsSpace(s[0]) then StripStart(s[1..]) else s
  }

  /** `s.rstrip()`. */
  function StripEnd(s: string): (r: string)
    ensures |r| <= |s| && r == s[..|r|]
    ensures forall k :: |r| <= k < |s| ==> IsSpace(s[k])
    ensures r == [] || !IsSpace(r[|r| - 1])
  {
    if s != [] && IsSpace(s[|s| - 1]) then StripEnd(s[..|s| - 1]) else s
  }

  /** `s.strip()`. */
  function Strip(s: string): string {
    StripEnd(StripStart(s))
  }

  /** `r` is `s[i..]` cut short, with only white space cut off at either end. */
  predicate TrimmedSliceAt(s: string, r: string, i: int) {
    && 0 <= i <= i + |r| <= |s| && r == s[i..i + |r|]
    && (forall k :: 0 <= k < i ==> IsSpace(s[k]))
    && (forall k :: i + |r| <= k < |s| ==> IsSpace(s[k]))
  }

  /** What `strip()` promises: it removes exactly the leading and trailing
      white space, so the result is a slice of `s` that neither starts nor
      ends with white space and everything cut off is white space. */
  lemma StripIsTrimmedSlice(s: string)
    ensures var r := Strip(s);
      && (r == [] || (!IsSpace(r[0]) && !IsSpace(r[|r| - 1])))
      && (exists i :: TrimmedSliceAt(s, r, i))
  {
    var t := StripStart(s);
    var r := StripEnd(t);
    TrimmedFromParts(s, t, r);
    if r != [] {
      assert r[0] == t[0];
    }
  }

  /** A white-space suffix cut off a white-space-prefix cut leaves a trimmed slice. */
  lemma TrimmedFromParts(s: string, t: string, r: string)
    requires |t| <= |s| && t == s[|s| - |t|..] && forall k :: 0 <= k < |s| - |t| ==> IsSpace(s[k])
    requires |r| <= |t| && r == t[..|r|] && forall k :: |r| <= k < |t| ==> IsSpace(t[k])
    ensures TrimmedSliceAt(s, r, |s| - |t|)
  {
    var i := |s| - |t|;
    assert r == s[i..i + |r|] by {
      assert s[i..][..|r|] == s[i..i + |r|];
    }
    forall k | i + |r| <= k < |s| ensures IsSpace(s[k]) {
      assert s[k] == t[k - i];
    }
  }

  // ---------------------------------------------------------------------------
  // The order `sorted()` uses on str: lexicographic by code point

  /** `s <= t` on Python strings. */
  predicate LessEq(s: string, t: string)
    decreases |s|
  {
    s == [] || (t != [] && (s[0] < t[0] || (s[0] == t[0] && LessEq(s[1..], t[1..]))))
  }

  lemma {:induction false} LessEqReflexive(s: string)
    ensures LessEq(s, s)
    decreases |s|
  {
    if s != [] { LessEqReflexive(s[1..]); }
  }

  lemma {:induction false} LessEqAntisymmetric(s: string, t: string)
    requires LessEq(s, t) && LessEq(t, s)
    ensures s == t
    decreases |s|
  {
    if s != [] {
      LessEqAntisymmetric(s[1..], t[1..]);
      assert s == [s[0]] + s[1..] && t == [t[0]] + t[1..];
    }
  }

  lemma {:induction false} LessEqTransitive(s: string, t: string, u: string)
    requires LessEq(s, t) && LessEq(t, u)
    ensures LessEq(s, u)
    decreases |s|
  {
    if s != [] && s[0] == t[0] && t[0] == u[0] {
      LessEqTransitive(s[1..], t[1..], u[1..]);
    }
  }

  lemma {:induction false} LessEqTotal(s: string, t: string)
    ensures LessEq(s, t) || LessEq(t, s)
    decreases |s|
  {
    if s != [] && t != [] && s[0] == t[0] {
      LessEqTotal(s[1..], t[1..]);
    }
  }

  // ---------------------------------------------------------------------------
  // sorted()

  predicate SortedLe(xs: seq<string>) {
    forall i, j :: 0 <= i < j < |xs| ==> LessEq(xs[i], xs[j])
  }

  /** Sorted ascending with no name twice: what `sorted()` of a set gives. */
  predicate StrictlySorted(xs: seq<string>) {
    forall i, j :: 0 <= i < j < |xs| ==> LessEq(xs[i], xs[j]) && xs[i] != xs[j]
  }

  /** `r` is the listing `sorted(s)` of the set `s`. */
  predicate SortedListing(r: seq<string>, s: set<string>) {
    && StrictlySorted(r)
    && (forall y :: y in r ==> y in s)
    && (forall y :: y in s ==> y in r)
  }

  function Insert(x: string, xs: seq<string>): (r: seq<string>)
    requires SortedLe(xs)
    ensures SortedLe(r)
    ensures multiset(r) == multiset(xs) + multiset{x}
    decreases |xs|
  {
    if xs == [] then [x]
    else if LessEq(x, xs[0]) then
      assert forall j :: 0 < j < |xs| ==> LessEq(x, xs[j]) by {
        forall j | 0 < j < |xs| ensures LessEq(x, xs[j]) {
          LessEqTransitive(x, xs[0], xs[j]);
        }
      }
      [x] + xs
    else
      LessEqTotal(x, xs[0]);
      var rest := Insert(x, xs[1..]);
      assert xs == [xs[0]] + xs[1..];
      assert forall j :: 0 <= j < |rest| ==> LessEq(xs[0], rest[j]) by {
        forall j | 0 <= j < |rest| ensures LessEq(xs[0], rest[j]) {
          assert rest[j] in multiset(rest);
          assert rest[j] == x || rest[j] in multiset(xs[1..]);
          if rest[j] != x {
            var k :| 0 <= k < |xs[1..]| && xs[1..][k] == rest[j];
            assert xs[k + 1] == rest[j];
          }
        }
      }
      [xs[0]] + rest
  }

  /** `sorted(xs)` for a list: ascending, duplicates kept. */
  function Sorted(xs: seq<string>): (r: seq<string>)
    ensures SortedLe(r)
    ensures multiset(r) == multiset(xs)
    decreases |xs|
  {
    if xs == [] then []
    else
      assert xs == [xs[0]] + xs[1..];
      Insert(xs[0], Sorted(xs[1..]))
  }

  function InsertDistinct(x: string, xs: seq<string>): (r: seq<string>)
    requires StrictlySorted(xs)
    ensures StrictlySorted(r)
    ensures forall y :: y in r <==> y == x || y in xs
    decreases |xs|
  {
    if xs == [] then [x]
    else if x == xs[0] then xs
    else if LessEq(x, xs[0]) then
      assert forall j :: 0 < j < |xs| ==> LessEq(x, xs[j]) && x != xs[j] by {
        forall j | 0 < j < |xs| ensures LessEq(x, xs[j]) && x != xs[j] {
          LessEqTransitive(x, xs[0], xs[j]);
          if x == xs[j] { LessEqAntisymmetric(xs[0], x); }
        }
      }
      [x] + xs
    else
      LessEqTotal(x, xs[0]);
      var rest := InsertDistinct(x, xs[1..]);
      assert forall y :: y in xs <==> y == xs[0] || y in xs[1..] by {
        assert xs == [xs[0]] + xs[1..];
      }
      assert forall j :: 0 <= j < |rest| ==> LessEq(xs[0], rest[j]) && xs[0] != rest[j] by {
        forall j | 0 <= j < |rest| ensures LessEq(xs[0], rest[j]) && xs[0] != rest[j] {
          assert rest[j] in rest;
          if rest[j] != x {
            assert rest[j] in xs[1..];
            var k :| 0 <= k < |xs[1..]| && xs[1..][k] == rest[j];
            assert xs[k + 1] == rest[j];
          }
        }
      }
      [xs[0]] + rest
  }

  /** `sorted(set(xs))`: the distinct names of `xs` in ascending order. */
  function SortedDistinct(xs: seq<string>): (r: seq<string>)
    ensures StrictlySorted(r)
    ensures forall y :: y in r <==> y in xs
    decreases |xs|
  {
    if xs == [] then []
    else
      assert forall y :: y in xs <==> y == xs[0] || y in xs[1..] by {
        assert xs == [xs[0]] + xs[1..];
      }
      InsertDistinct(xs[0], SortedDistinct(xs[1..]))
  }

  /** The tail of a sorted listing of `s` is a sorted listing of `s` without its head. */
  lemma ListingTail(r: seq<string>, s: set<string>)
    requires r != [] && SortedListing(r, s)
    ensures SortedListing(r[1..], s - {r[0]})
  {
    forall y | y in s - {r[0]} ensures y in r[1..] {
      var k :| 0 <= k < |r| && r[k] == y;
      assert r[1..][k - 1] == y;
    }
    forall y | y in r[1..] ensures y in s - {r[0]} {
      var k :| 0 <= k < |r[1..]| && r[1..][k] == y;
      assert r[k + 1] == y;
    }
  }

  /** A sorted listing names each element of the set exactly once. */
  lemma {:induction false} ListingLength(r: seq<string>, s: set<string>)
    requires SortedListing(r, s)
    ensures |r| == |s|
    decreases |r|
  {
    if r == [] {
      assert s == {};
    } else {
      ListingTail(r, s);
      ListingLength(r[1..], s - {r[0]});
    }
  }

  /** A set has exactly one sorted listing, so a finding that lists
      `SortedDistinct` of some names lists `sorted()` of their set. */
  lemma {:induction false} SortedListingUnique(a: seq<string>, b: seq<string>, s: set<string>)
    requires SortedListing(a, s) && SortedListing(b, s)
    ensures a == b
    decreases |a|
  {
    ListingLength(a, s);
    ListingLength(b, s);
    if a == [] {
    } else {
      assert b != [] by { assert a[0] in s; }
      // a[0] and b[0] are both the least element of s
      assert b[0] in a;
      var i :| 0 <= i < |a| && a[i] == b[0];
      assert LessEq(a[0], b[0]) by { if i == 0 { LessEqReflexive(a[0]); } }
      assert a[0] in b;
      var j :| 0 <= j < |b| && b[j] == a[0];
      assert LessEq(b[0], a[0]) by { if j == 0 { LessEqReflexive(b[0]); } }
      LessEqAntisymmetric(a[0], b[0]);
      var s' := s - {a[0]};
      forall y ensures y in a[1..] <==> y in s' {
        if y in a[1..] {
          var k :| 0 <= k < |a[1..]| && a[1..][k] == y;
          assert a[k + 1] == y;
        }
        if y in s' {
          assert y in a;
          var k :| 0 <= k < |a| && a[k] == y;
          assert k != 0;
          assert a[1..][k - 1] == y;
        }
      }
      forall y ensures y in b[1..] <==> y in s' {
        if y in b[1..] {
          var k :| 0 <= k < |b[1..]| && b[1..][k] == y;
          assert b[k + 1] == y;
        }
        if y in s' {
          assert y in b;
          var k :| 0 <= k < |b| && b[k] == y;
          assert k != 0;
          assert b[1..][k - 1] == y;
        }
      }
      SortedListingUnique(a[1..], b[1..], s');
      assert a == [a[0]] + a[1..] && b == [b[0]] + b[1..];
    }
  }

  // ---------------------------------------------------------------------------
  // split, strip and find on given text

  /** Text without the separator splits into itself alone. */
  lemma {:induction false} SplitNoSeparator(s: string, sep: char)
    requires sep !in s
    ensures Split(s, sep) == [s]
    decreases |s|
  {
    if s != [] {
      SplitNoSeparator(s[1..], sep);
      assert s == [s[0]] + s[1..];
    }
  }

  /** Splitting at the first separator gives the text before it, then the pieces of the rest. */
  lemma {:induction false} SplitAtSeparator(a: string, b: string, sep: char)
    requires sep !in a
    ensures Split(a + [sep] + b, sep) == [a] + Split(b, sep)
    decreases |a|
  {
    if a == [] {
      assert a + [sep] + b == [sep] + b;
      assert (a + [sep] + b)[1..] == b;
    } else {
      SplitAtSeparator(a[1..], b, sep);
      assert (a + [sep] + b)[1..] == a[1..] + [sep] + b;
      assert a == [a[0]] + a[1..];
    }
  }

  /** Text that neither starts nor ends with white space strips to itself. */
  lemma StripClean(s: string)
    requires s == [] || (!IsSpace(s[0]) && !IsSpace(s[|s| - 1]))
    ensures Strip(s) == s
  {
  }

  /** A leading white-space character does not change what `strip()` gives. */
  lemma StripLeadingSpace(c: char, s: string)
    requires IsSpace(c)
    ensures Strip([c] + s) == Strip(s)
  {
    assert ([c] + s)[1..] == s;
  }

  /** When `p` first occurs in `a + p + t` right after `a`, the text after the first `p` is `t`. */
  lemma AfterFirst(a: string, p: string, t: string)
    requires p != [] && forall j :: 0 <= j < |a| ==> a[j] != p[0]
    ensures Contains(a + p + t, p) && After(a + p + t, p) == t
  {
    var s := a + p + t;
    assert s[|a|..|a| + |p|] == p;
    OccurrenceFound(s, p, |a|);
    var r := After(s, p);
    var m := |s| - |r| - |p|;
    assert OccursAt(s, p, |a|);
    assert s[m..m + |p|] == p;
    assert s[m] == p[0];
    assert s[|a| + |p|..] == t;
  }

  /** When `p` does not occur in `a + p + t` before the end of `a`, the text
      after the first `p` is `t`. */
  lemma AfterFirstFrom(a: string, p: string, t: string)
    requires forall j :: 0 <= j < |a| ==> !OccursAt(a + p + t, p, j)
    ensures Contains(a + p + t, p) && After(a + p + t, p) == t
  {
    var s := a + p + t;
    assert s[|a|..|a| + |p|] == p;
    assert OccursAt(s, p, |a|);
    OccurrenceFound(s, p, |a|);
    var r := After(s, p);
    assert |s| - |r| - |p| == |a|;
    assert s[|a| + |p|..] == t;
  }

  /** `s` contains every `p` of a split `a + p + t`. */
  lemma ContainsMiddle(a: string, p: string, t: string)
    ensures Contains(a + p + t, p)
  {
    var s := a + p + t;
    assert s[|a|..|a| + |p|] == p;
    OccurrenceFound(s, p, |a|);
  }
}
