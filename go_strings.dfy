/** Models of the pieces of Go's standard library that the downloader calls:
    path.Ext, strings.ToLower (ASCII letters only), strings.SplitN(s, ":", 2)[1],
    strings.ReplaceAll(s, "/", "_"), strings.Join, sort.Strings and strconv.Itoa.

    A Go string is a sequence of bytes. Here each char of a `string` stands for
    one byte, so lengths, slices and comparisons are byte-wise, as in Go. */
module GoStrings {

  predicate IsPrefix<T(==)>(a: seq<T>, b: seq<T>) {
    |a| <= |b| && b[..|a|] == a
  }

  predicate IsSuffix<T(==)>(a: seq<T>, b: seq<T>) {
    |a| <= |b| && b[|b| - |a|..] == a
  }

  /** No '.' and no '/' anywhere in `s`. */
  predicate NoDotOrSlash(s: string) {
    forall i :: 0 <= i < |s| ==> s[i] != '.' && s[i] != '/'
  }

  // ---------------------------------------------------------------- path.Ext

  /** The index of the last `c` among the first `n` bytes of `p`, or -1. */
  function LastIndex(p: string, c: char, n: nat): (k: int)
    requires n <= |p|
    ensures -1 <= k < n
  {
    if n == 0 then -1 else if p[n - 1] == c then n - 1 else LastIndex(p, c, n - 1)
  }

  /** LastIndex finds a `c` when there is one, and no `c` stands after it. */
  lemma {:induction false} LastIndexShape(p: string, c: char, n: nat)
    requires n <= |p|
    ensures LastIndex(p, c, n) >= 0 ==> p[LastIndex(p, c, n)] == c
    ensures forall j :: LastIndex(p, c, n) < j < n ==> p[j] != c
  {
    if n > 0 && p[n - 1] != c {
      LastIndexShape(p, c, n - 1);
    }
  }

  /** The part of `p` after its last `c`, or all of `p` when it has no `c`. */
  function AfterLast(p: string, c: char): string
  {
    p[LastIndex(p, c, |p|) + 1..]
  }

  /** The final '/'-separated element of `p`. */
  function LastElement(p: string): string
  {
    AfterLast(p, '/')
  }

  /** The scan of path.Ext over the first `n` bytes of `p`, from the back: the
      index of the first '.' met before any '/', or -1. */
  function ExtIndex(p: string, n: nat): (k: int)
    requires n <= |p|
    ensures -1 <= k < n
  {
    if n == 0 || p[n - 1] == '/' then -1
    else if p[n - 1] == '.' then n - 1
    else ExtIndex(p, n - 1)
  }

  /** path.Ext: from the final '.' of the last element of `p` to the end, or ""
      when that element has no '.'. */
  function PathExt(p: string): string
  {
    var k := ExtIndex(p, |p|);
    if k < 0 then "" else p[k..]
  }

  /** The scan stops at a '.' after the last '/', with no '.' or '/' after
      it; it finds nothing only when no '.' follows the last '/'. */
  lemma {:induction false} ExtIndexShape(p: string, n: nat)
    requires n <= |p|
    ensures ExtIndex(p, n) >= 0 ==> LastIndex(p, '/', n) < ExtIndex(p, n) && p[ExtIndex(p, n)] == '.'
    ensures ExtIndex(p, n) >= 0 ==> forall j :: ExtIndex(p, n) < j < n ==> p[j] != '.' && p[j] != '/'
    ensures ExtIndex(p, n) < 0 ==> forall j :: LastIndex(p, '/', n) < j < n ==> p[j] != '.'
  {
    if n > 0 && p[n - 1] != '/' && p[n - 1] != '.' {
      ExtIndexShape(p, n - 1);
    }
  }

  /** What path.Ext returns: a suffix of the last element that is "" exactly
      when that element has no '.', and otherwise a '.' followed by neither '.'
      nor '/'. */
  lemma PathExtShape(p: string)
    ensures IsSuffix(PathExt(p), LastElement(p))
    ensures PathExt(p) == [] || (PathExt(p)[0] == '.' && NoDotOrSlash(PathExt(p)[1..]))
    ensures PathExt(p) == [] <==> '.' !in LastElement(p)
  {
    ExtIndexShape(p, |p|);
    var k := ExtIndex(p, |p|);
    var s := LastIndex(p, '/', |p|);
    var last := LastElement(p);
    assert last == p[s + 1..];
    if k >= 0 {
      var e := p[k..];
      assert last[k - s - 1..] == e;
      assert e[0] == '.';
      forall i | 0 <= i < |e[1..]| ensures e[1..][i] != '.' && e[1..][i] != '/' {
        assert e[1..][i] == p[k + 1 + i];
      }
      assert last[k - s - 1] == '.';
    } else {
      forall i | 0 <= i < |last| ensures last[i] != '.' {
        assert last[i] == p[s + 1 + i];
      }
    }
  }

  /** Scanning q + e, where e is a '.' followed by neither '.' nor '/', from
      inside e finds the '.' at the start of e. */
  lemma {:induction false} ExtIndexOfSuffix(q: string, e: string, m: nat)
    requires 0 < m <= |e| && e[0] == '.' && NoDotOrSlash(e[1..])
    ensures ExtIndex(q + e, |q| + m) == |q|
  {
    assert (q + e)[|q| + m - 1] == e[m - 1];
    if m > 1 {
      assert e[m - 1] == e[1..][m - 2];
      ExtIndexOfSuffix(q, e, m - 1);
    }
  }

  /** A final '.' followed by no other '.' or '/' is the extension. */
  lemma PathExtOfSuffix(q: string, e: string)
    requires |e| > 0 && e[0] == '.' && NoDotOrSlash(e[1..])
    ensures PathExt(q + e) == e
  {
    ExtIndexOfSuffix(q, e, |e|);
    assert (q + e)[|q|..] == e;
  }

  /** Scanning q + "/" + s from inside s finds what scanning s finds, shifted. */
  lemma {:induction false} ExtIndexAfterSlash(q: string, s: string, m: nat)
    requires m <= |s| && '/' !in s
    ensures ExtIndex(q + "/" + s, |q| + 1 + m) ==
      if ExtIndex(s, m) < 0 then -1 else |q| + 1 + ExtIndex(s, m)
  {
    var p := q + "/" + s;
    if m == 0 {
      assert p[|q|] == '/';
    } else {
      assert p[|q| + m] == s[m - 1];
      ExtIndexAfterSlash(q, s, m - 1);
    }
  }

  /** path.Ext looks only at the element after the last '/'. */
  lemma PathExtLastElement(q: string, s: string)
    requires '/' !in s
    ensures PathExt(q + "/" + s) == PathExt(s)
  {
    ExtIndexAfterSlash(q, s, |s|);
    var k := ExtIndex(s, |s|);
    if k >= 0 {
      assert (q + "/" + s)[|q| + 1 + k..] == s[k..];
    }
  }

  // ------------------------------------------------------- strings.ToLower

  predicate IsUpper(c: char) {
    'A' <= c <= 'Z'
  }

  function LowerChar(c: char): (r: char)
    ensures !IsUpper(r)
    ensures IsUpper(c) ==> 'a' <= r <= 'z' && r as int - 'a' as int == c as int - 'A' as int
    ensures !IsUpper(c) ==> r == c
  {
    if IsUpper(c) then (c as int + 32) as char else c
  }

  /** strings.ToLower restricted to ASCII letters: every 'A'..'Z' becomes the
      matching 'a'..'z', every other byte is kept. */
  function ToLowerAscii(s: string): string
  {
    seq(|s|, i requires 0 <= i < |s| => LowerChar(s[i]))
  }

  // --------------------------------------------- strings.SplitN(s, ":", 2)[1]

  /** The second part of strings.SplitN(s, ":", 2): everything after the first
      ':' of `s`, later colons included. SplitN yields only one part when `s`
      has no ':', so indexing [1] needs one. */
  function AfterFirstColon(s: string): (r: string)
    requires ':' in s
    ensures IsSuffix(r, s) && |r| < |s|
    ensures s[|s| - |r| - 1] == ':' && ':' !in s[..|s| - |r| - 1]
  {
    if s[0] == ':' then s[1..]
    else
      assert s[1..][|s| - 2 - |AfterFirstColon(s[1..])|..] == s[|s| - 1 - |AfterFirstColon(s[1..])|..];
      var r := AfterFirstColon(s[1..]);
      assert s[..|s| - |r| - 1] == [s[0]] + s[1..][..|s| - 1 - |r| - 1];
      r
  }

  // ----------------------------------------------- strings.ReplaceAll(s, "/", "_")

  /** strings.ReplaceAll(s, "/", "_"): same length, no '/' left, every other
      byte kept in place. */
  function ReplaceSlashes(s: string): (r: string)
    ensures |r| == |s| && '/' !in r
    ensures forall i :: 0 <= i < |s| ==> r[i] == (if s[i] == '/' then '_' else s[i])
  {
    seq(|s|, i requires 0 <= i < |s| => if s[i] == '/' then '_' else s[i])
  }

  // ---------------------------------------------------------- strings.Join

  /** strings.Join: the parts with `sep` between consecutive ones. */
  function Join(parts: seq<string>, sep: string): string
  {
    if |parts| == 0 then ""
    else if |parts| == 1 then parts[0]
    else parts[0] + sep + Join(parts[1..], sep)
  }

  /** A byte that is in no part and not in the separator is not in the join. */
  lemma {:induction false} JoinAvoids(parts: seq<string>, sep: string, c: char)
    requires c !in sep
    requires forall i :: 0 <= i < |parts| ==> c !in parts[i]
    ensures c !in Join(parts, sep)
  {
    if |parts| > 1 {
      JoinAvoids(parts[1..], sep, c);
    }
  }

  // ------------------------------------------------- string order, sort.Strings

  /** Go's `<=` on strings: byte-wise lexicographic order, a prefix first. */
  predicate StrLeq(a: string, b: string) {
    a == [] || (b != [] && (a[0] < b[0] || (a[0] == b[0] && StrLeq(a[1..], b[1..]))))
  }

  lemma {:induction false} StrLeqReflexive(a: string)
    ensures StrLeq(a, a)
  {
    if a != [] {
      StrLeqReflexive(a[1..]);
    }
  }

  lemma {:induction false} StrLeqTotal(a: string, b: string)
    ensures StrLeq(a, b) || StrLeq(b, a)
  {
    if a != [] && b != [] && a[0] == b[0] {
      StrLeqTotal(a[1..], b[1..]);
    }
  }

  lemma {:induction false} StrLeqTransitive(a: string, b: string, c: string)
    requires StrLeq(a, b) && StrLeq(b, c)
    ensures StrLeq(a, c)
  {
    if a != [] && a[0] == b[0] && b[0] == c[0] {
      StrLeqTransitive(a[1..], b[1..], c[1..]);
    }
  }

  lemma {:induction false} StrLeqAntisymmetric(a: string, b: string)
    requires StrLeq(a, b) && StrLeq(b, a)
    ensures a == b
  {
    if a != [] {
      StrLeqAntisymmetric(a[1..], b[1..]);
      assert a == [a[0]] + a[1..] && b == [b[0]] + b[1..];
    }
  }

  predicate Sorted(s: seq<string>) {
    forall i, j :: 0 <= i < j < |s| ==> StrLeq(s[i], s[j])
  }

  /** A head that does not exceed any element of a sorted tail keeps it sorted. */
  lemma ConsSorted(h: string, t: seq<string>)
    requires Sorted(t)
    requires forall j :: 0 <= j < |t| ==> StrLeq(h, t[j])
    ensures Sorted([h] + t)
  {
    assert forall j :: 0 < j < |t| + 1 ==> ([h] + t)[j] == t[j - 1];
  }

  lemma {:induction false} BoundsSortedTail(x: string, s: seq<string>)
    requires Sorted(s) && (s != [] ==> StrLeq(x, s[0]))
    ensures forall j :: 0 <= j < |s| ==> StrLeq(x, s[j])
  {
    forall j | 0 < j < |s| ensures StrLeq(x, s[j]) {
      StrLeqTransitive(x, s[0], s[j]);
    }
  }

  lemma BoundsPermutation(h: string, s: seq<string>, x: string, r: seq<string>)
    requires StrLeq(h, x) && forall j :: 0 <= j < |s| ==> StrLeq(h, s[j])
    requires multiset(r) == multiset(s) + multiset{x}
    ensures forall j :: 0 <= j < |r| ==> StrLeq(h, r[j])
  {
    forall j | 0 <= j < |r| ensures StrLeq(h, r[j]) {
      assert r[j] in multiset(r);
      if r[j] != x {
        assert r[j] in multiset(s);
        var k :| 0 <= k < |s| && s[k] == r[j];
      }
    }
  }

  /** Inserts `x` into the sorted `s` before the first element it does not
      exceed. */
  function Insert(x: string, s: seq<string>): (r: seq<string>)
    requires Sorted(s)
    ensures Sorted(r) && multiset(r) == multiset(s) + multiset{x}
  {
    if s == [] || StrLeq(x, s[0]) then
      BoundsSortedTail(x, s);
      ConsSorted(x, s);
      [x] + s
    else
      var rest := Insert(x, s[1..]);
      StrLeqTotal(x, s[0]);
      assert forall j :: 0 <= j < |s[1..]| ==> StrLeq(s[0], s[1..][j]) by {
        forall j | 0 <= j < |s[1..]| ensures StrLeq(s[0], s[1..][j]) {
          assert s[1..][j] == s[j + 1];
        }
      }
      BoundsPermutation(s[0], s[1..], x, rest);
      ConsSorted(s[0], rest);
      assert s == [s[0]] + s[1..];
      [s[0]] + rest
  }

  /** sort.Strings, as a function: the sorted permutation of `s`. */
  function SortStrings(s: seq<string>): (r: seq<string>)
    ensures Sorted(r) && multiset(r) == multiset(s)
  {
    if s == [] then []
    else
      assert s == [s[0]] + s[1..];
      Insert(s[0], SortStrings(s[1..]))
  }

  /** A sorted sequence is determined by its multiset of elements, so
      sort.Strings gives the same result for every ordering of its input. */
  lemma {:induction false} SortedUnique(a: seq<string>, b: seq<string>)
    requires Sorted(a) && Sorted(b) && multiset(a) == multiset(b)
    ensures a == b
    decreases |a|
  {
    if a != [] {
      assert |b| == |multiset(b)| == |multiset(a)| == |a|;
      SortedSameHead(a, b);
      assert a == [a[0]] + a[1..] && b == [b[0]] + b[1..];
      assert multiset(a[1..]) == multiset(a) - multiset{a[0]};
      assert multiset(b[1..]) == multiset(b) - multiset{b[0]};
      SortedUnique(a[1..], b[1..]);
    }
  }

  /** Two sorted sequences with the same elements start with the same one. */
  lemma SortedSameHead(a: seq<string>, b: seq<string>)
    requires Sorted(a) && Sorted(b) && multiset(a) == multiset(b) && a != [] && b != []
    ensures a[0] == b[0]
  {
    assert a[0] in multiset(b) && b[0] in multiset(a);
    var i :| 0 <= i < |a| && a[i] == b[0];
    var j :| 0 <= j < |b| && b[j] == a[0];
    assert StrLeq(a[0], b[0]) by {
      if i == 0 { StrLeqReflexive(a[0]); }
    }
    assert StrLeq(b[0], a[0]) by {
      if j == 0 { StrLeqReflexive(b[0]); }
    }
    StrLeqAntisymmetric(a[0], b[0]);
  }

  lemma SortPermutationInvariant(s: seq<string>, t: seq<string>)
    requires multiset(s) == multiset(t)
    ensures SortStrings(s) == SortStrings(t)
  {
    SortedUnique(SortStrings(s), SortStrings(t));
  }

  // --------------------------------------------------------- strconv.Itoa

  function DigitChar(d: nat): (c: char)
    requires d < 10
    ensures '0' <= c <= '9'
  {
    ('0' as int + d) as char
  }

  /** The decimal digits of `n`, most significant first, without leading zeros. */
  function Digits(n: nat): (r: string)
    ensures r != []
    ensures forall i :: 0 <= i < |r| ==> '0' <= r[i] <= '9'
  {
    if n < 10 then [DigitChar(n)] else Digits(n / 10) + [DigitChar(n % 10)]
  }

  /** strconv.Itoa: a '-' for negative numbers, then the decimal digits. */
  function Itoa(n: int): (r: string)
    ensures r != []
    ensures forall i :: 0 <= i < |r| ==> r[i] == '-' || '0' <= r[i] <= '9'
  {
    if n < 0 then "-" + Digits(-n) else Digits(n)
  }

  /** The value of a string of decimal digits. */
  function DigitsValue(s: string): nat
  {
    if s == [] then 0
    else
      var d := s[|s| - 1] as int - '0' as int;
      DigitsValue(s[..|s| - 1]) * 10 + (if 0 <= d < 10 then d else 0)
  }

  /** Decimal parsing as strconv.Atoi does it on what Itoa produces. */
  function Atoi(s: string): int
  {
    if s != [] && s[0] == '-' then -(DigitsValue(s[1..]) as int) else DigitsValue(s)
  }

  lemma {:induction false} DigitsRoundTrip(n: nat)
    ensures DigitsValue(Digits(n)) == n
  {
    if n >= 10 {
      DigitsRoundTrip(n / 10);
      var s := Digits(n / 10) + [DigitChar(n % 10)];
      assert s[..|s| - 1] == Digits(n / 10);
    }
  }

  /** Atoi undoes Itoa, so Itoa maps distinct numbers to distinct strings. */
  lemma ItoaRoundTrip(n: int)
    ensures Atoi(Itoa(n)) == n
  {
    if n < 0 {
      DigitsRoundTrip(-n);
      assert Itoa(n)[1..] == Digits(-n);
      assert Digits(-n)[0] != '-';
    } else {
      DigitsRoundTrip(n);
      assert Digits(n)[0] != '-';
    }
  }

  lemma ItoaInjective(a: int, b: int)
    requires Itoa(a) == Itoa(b)
    ensures a == b
  {
    ItoaRoundTrip(a);
    ItoaRoundTrip(b);
  }
}
