/** Building blocks shared by every part of the model: the Option and reply datatypes, the
    array searches the handlers call (filter, find, findIndex, slice), and the few
    JavaScript string and number primitives they depend on. */
module Common {

  datatype Option<T> = None | Some(value: T)

  /** What a route handler answers: an HTTP status with either its payload or its error message. */
  datatype Reply<T> = Ok(status: int, data: T) | Err(status: int, error: string)

  // ---------------------------------------------------------------------------
  // Array searches

  /** Array.prototype.filter: the elements satisfying `p`, in their original order. */
  function Filter<T>(s: seq<T>, p: T -> bool): (r: seq<T>)
    ensures |r| <= |s|
    ensures forall i :: 0 <= i < |r| ==> p(r[i])
  {
    if s == [] then [] else (if p(s[0]) then [s[0]] else []) + Filter(s[1..], p)
  }

  /** The elements Filter keeps are exactly the elements of `s` that pass. */
  lemma {:induction false} FilterMembers<T(!new)>(s: seq<T>, p: T -> bool)
    ensures forall x :: x in Filter(s, p) <==> x in s && p(x)
  {
    if s != [] {
      FilterMembers(s[1..], p);
      assert s == [s[0]] + s[1..];
    }
  }

  /** Filter keeps every passing element as often as `s` holds it, and no failing one. */
  lemma {:induction false} FilterCount<T>(s: seq<T>, p: T -> bool)
    ensures forall x :: multiset(Filter(s, p))[x] == if p(x) then multiset(s)[x] else 0
  {
    if s != [] {
      FilterCount(s[1..], p);
      assert s == [s[0]] + s[1..];
    }
  }

  lemma {:induction false} FilterAppend<T>(a: seq<T>, b: seq<T>, p: T -> bool)
    ensures Filter(a + b, p) == Filter(a, p) + Filter(b, p)
  {
    if a != [] {
      var head := if p(a[0]) then [a[0]] else [];
      assert (a + b)[0] == a[0];
      assert (a + b)[1..] == a[1..] + b;
      FilterAppend(a[1..], b, p);
      calc {
        Filter(a + b, p);
        head + Filter(a[1..] + b, p);
        head + (Filter(a[1..], p) + Filter(b, p));
        (head + Filter(a[1..], p)) + Filter(b, p);
        Filter(a, p) + Filter(b, p);
      }
    } else {
      assert a + b == b;
    }
  }

  /** An element that passes at the end of `s` is also the last element Filter keeps. */
  lemma FilterLast<T>(s: seq<T>, p: T -> bool)
    requires |s| > 0 && p(s[|s| - 1])
    ensures |Filter(s, p)| > 0 && Filter(s, p)[|Filter(s, p)| - 1] == s[|s| - 1]
  {
    var n := |s|;
    assert s == s[..n - 1] + [s[n - 1]];
    FilterAppend(s[..n - 1], [s[n - 1]], p);
    assert Filter([s[n - 1]], p) == [s[n - 1]];
  }

  /** Filtering keeps everything when every element passes. */
  lemma {:induction false} FilterAll<T(!new)>(s: seq<T>, p: T -> bool)
    requires forall x :: x in s ==> p(x)
    ensures Filter(s, p) == s
  {
    if s != [] {
      assert forall x :: x in s[1..] ==> x in s;
      FilterAll(s[1..], p);
    }
  }

  /** Two tests that agree on every element of `s` filter it alike. */
  lemma {:induction false} FilterSame<T>(s: seq<T>, p: T -> bool, q: T -> bool)
    requires forall i :: 0 <= i < |s| ==> p(s[i]) == q(s[i])
    ensures Filter(s, p) == Filter(s, q)
  {
    if s != [] {
      FilterSame(s[1..], p, q);
    }
  }

  /** Two filters in a row are one filter by the conjunction of their tests. */
  lemma {:induction false} FilterFilter<T(!new)>(s: seq<T>, p: T -> bool, q: T -> bool, both: T -> bool)
    requires forall x :: both(x) == (p(x) && q(x))
    ensures Filter(Filter(s, p), q) == Filter(s, both)
  {
    if s != [] {
      FilterFilter(s[1..], p, q, both);
      var rest := Filter(s[1..], p);
      if p(s[0]) {
        var once := [s[0]] + rest;
        assert Filter(s, p) == once;
        assert once[0] == s[0] && once[1..] == rest;
        assert Filter(once, q) == (if q(s[0]) then [s[0]] else []) + Filter(rest, q);
      } else {
        assert Filter(s, p) == rest;
      }
    }
  }

  /** Array.prototype.findIndex: the first index whose element satisfies `p`, or -1. */
  function FindIndex<T>(s: seq<T>, p: T -> bool): (r: int)
    ensures -1 <= r < |s|
    ensures r >= 0 ==> p(s[r])
    ensures forall j :: 0 <= j < |s| && (r < 0 || j < r) ==> !p(s[j])
  {
    if s == [] then -1
    else if p(s[0]) then 0
    else
      var k := FindIndex(s[1..], p);
      if k < 0 then -1 else k + 1
  }

  /** Array.prototype.find: the first element satisfying `p`, if any. */
  function Find<T(!new)>(s: seq<T>, p: T -> bool): (r: Option<T>)
    ensures r.None? <==> forall x :: x in s ==> !p(x)
    ensures r.Some? ==> r.value in s && p(r.value)
    ensures r.Some? ==> FindIndex(s, p) >= 0 && r.value == s[FindIndex(s, p)]
  {
    var i := FindIndex(s, p);
    if i < 0 then None else Some(s[i])
  }

  /** `x` is the first element of `s` that satisfies `p`. */
  ghost predicate IsFirst<T>(s: seq<T>, p: T -> bool, x: T)
  {
    exists k :: 0 <= k < |s| && s[k] == x && p(x) && forall j :: 0 <= j < k ==> !p(s[j])
  }

  /** What Find returns is the first element that passes. */
  lemma FindIsFirst<T(!new)>(s: seq<T>, p: T -> bool)
    ensures Find(s, p).Some? ==> IsFirst(s, p, Find(s, p).value)
  {
    var k := FindIndex(s, p);
    if k >= 0 {
      assert s[k] == Find(s, p).value;
    }
  }

  /** There is only one first element. */
  lemma FirstIsUnique<T>(s: seq<T>, p: T -> bool, x: T, y: T)
    requires IsFirst(s, p, x) && IsFirst(s, p, y)
    ensures x == y
  {
    var k :| 0 <= k < |s| && s[k] == x && p(x) && forall j :: 0 <= j < k ==> !p(s[j]);
    var m :| 0 <= m < |s| && s[m] == y && p(y) && forall j :: 0 <= j < m ==> !p(s[j]);
    assert !(k < m) && !(m < k);
  }

  /** Two lists on which a test gives the same answers position by position have the same
      first passing position. */
  lemma {:induction false} FindIndexSame<T, U>(a: seq<T>, p: T -> bool, b: seq<U>, q: U -> bool)
    requires |a| == |b| && forall i :: 0 <= i < |a| ==> p(a[i]) == q(b[i])
    ensures FindIndex(a, p) == FindIndex(b, q)
  {
    if a != [] {
      FindIndexSame(a[1..], p, b[1..], q);
    }
  }

  /** Searching a concatenation searches the first part, then the second. */
  lemma FindIndexAppend<T>(a: seq<T>, b: seq<T>, p: T -> bool)
    ensures FindIndex(a + b, p) ==
              if FindIndex(a, p) >= 0 then FindIndex(a, p)
              else if FindIndex(b, p) < 0 then -1
              else |a| + FindIndex(b, p)
  {
    var r, ka, kb := FindIndex(a + b, p), FindIndex(a, p), FindIndex(b, p);
    assert forall j :: 0 <= j < |a| ==> (a + b)[j] == a[j];
    assert forall j :: 0 <= j < |b| ==> (a + b)[|a| + j] == b[j];
    if ka >= 0 {
      assert p((a + b)[ka]);
      assert r >= 0 && !(r < ka);
    } else if kb >= 0 {
      assert p((a + b)[|a| + kb]);
      assert r >= 0 && !(r < |a|) && !(r < |a| + kb);
    }
  }

  lemma FindAppend<T(!new)>(a: seq<T>, b: seq<T>, p: T -> bool)
    ensures Find(a + b, p) == if Find(a, p).Some? then Find(a, p) else Find(b, p)
  {
    FindIndexAppend(a, b, p);
    var kb := FindIndex(b, p);
    if FindIndex(a, p) < 0 && kb >= 0 {
      assert (a + b)[|a| + kb] == b[kb];
    }
  }

  /** A filter applied only when its parameter is given is a filter by "not given, or passes". */
  lemma FilterWhen<T(!new)>(s: seq<T>, given: bool, p: T -> bool, q: T -> bool)
    requires forall x :: q(x) == (!given || p(x))
    ensures (if given then Filter(s, p) else s) == Filter(s, q)
  {
    if given {
      FilterSame(s, p, q);
    } else {
      FilterAll(s, q);
    }
  }

  /** The position Array.prototype.slice resolves one argument to: NaN (None) reads as 0,
      a negative value counts back from the end, and the result is clamped to the length. */
  function SliceIndex(x: Option<int>, len: nat): (k: nat)
    ensures k <= len
    ensures x.Some? && 0 <= x.value <= len ==> k == x.value
  {
    if x.None? then 0
    else if x.value < 0 then (if len + x.value < 0 then 0 else len + x.value)
    else if x.value > len then len
    else x.value
  }

  /** Array.prototype.slice(start, end). */
  function JsSlice<T>(s: seq<T>, start: Option<int>, end: Option<int>): (r: seq<T>)
    ensures |r| <= |s|
    ensures SliceIndex(start, |s|) < SliceIndex(end, |s|) ==>
              r == s[SliceIndex(start, |s|)..SliceIndex(end, |s|)]
    ensures SliceIndex(end, |s|) <= SliceIndex(start, |s|) ==> r == []
  {
    var from, to := SliceIndex(start, |s|), SliceIndex(end, |s|);
    if from < to then s[from..to] else []
  }

  // ---------------------------------------------------------------------------
  // Characters and strings

  predicate IsDigit(c: char) { '0' <= c <= '9' }

  predicate IsHexDigit(c: char) { IsDigit(c) || 'a' <= c <= 'f' || 'A' <= c <= 'F' }

  predicate IsLowerAlnum(c: char) { 'a' <= c <= 'z' || IsDigit(c) }

  /** The characters of JavaScript's `\s` class, which are also those String.prototype.trim
      and parseInt skip: white space and line terminators. */
  predicate IsJsSpace(c: char)
  {
    c == '\t' || c == '\n' || c == '\U{B}' || c == '\U{C}' || c == '\r' || c == ' ' ||
    c == '\U{A0}' || c == '\U{1680}' || '\U{2000}' <= c <= '\U{200A}' ||
    c == '\U{2028}' || c == '\U{2029}' || c == '\U{202F}' || c == '\U{205F}' ||
    c == '\U{3000}' || c == '\U{FEFF}'
  }

  /** The value of a decimal or hexadecimal digit. */
  function DigitValue(c: char): (d: nat)
    ensures IsDigit(c) ==> d < 10
    ensures IsHexDigit(c) ==> d < 16
  {
    if IsDigit(c) then c as int - '0' as int
    else if 'a' <= c <= 'f' then c as int - 'a' as int + 10
    else if 'A' <= c <= 'F' then c as int - 'A' as int + 10
    else 0
  }

  /** The number a string of digits denotes in base `radix`, most significant digit first. */
  function RadixValue(digits: string, radix: nat): nat
  {
    if digits == [] then 0
    else RadixValue(digits[..|digits| - 1], radix) * radix + DigitValue(digits[|digits| - 1])
  }

  /** The longest prefix of `s` whose characters all satisfy `p`. */
  function Span(s: string, p: char -> bool): (r: string)
    ensures r <= s
    ensures forall i :: 0 <= i < |r| ==> p(r[i])
    ensures |r| < |s| ==> !p(s[|r|])
  {
    if s == [] || !p(s[0]) then [] else [s[0]] + Span(s[1..], p)
  }

  /** String.prototype.toLowerCase, on the ASCII letters only. */
  function Lower(s: string): (r: string)
    ensures |r| == |s|
    ensures forall i :: 0 <= i < |s| ==> r[i] == (if 'A' <= s[i] <= 'Z' then (s[i] as int + 32) as char else s[i])
  {
    if s == [] then []
    else [if 'A' <= s[0] <= 'Z' then (s[0] as int + 32) as char else s[0]] + Lower(s[1..])
  }

  /** `sub` occurs in `s` starting at position `i`. */
  predicate OccursAt(s: string, sub: string, i: int)
  {
    0 <= i && i + |sub| <= |s| && s[i..i + |sub|] == sub
  }

  /** String.prototype.includes: `sub` occurs somewhere in `s` (the empty string occurs everywhere). */
  function Includes(s: string, sub: string): (r: bool)
    ensures r <==> exists i :: OccursAt(s, sub, i)
    decreases |s|
  {
    if |sub| > |s| then false
    else if s[..|sub|] == sub then assert OccursAt(s, sub, 0); true
    else
      var r := Includes(s[1..], sub);
      assert r ==> exists i :: OccursAt(s, sub, i) by {
        if r {
          var i :| OccursAt(s[1..], sub, i);
          assert s[i + 1..i + 1 + |sub|] == s[1..][i..i + |sub|];
          assert OccursAt(s, sub, i + 1);
        }
      }
      assert (exists i :: OccursAt(s, sub, i)) ==> r by {
        if exists i :: OccursAt(s, sub, i) {
          var i :| OccursAt(s, sub, i);
          assert i != 0;
          assert s[1..][i - 1..i - 1 + |sub|] == s[i..i + |sub|];
          assert OccursAt(s[1..], sub, i - 1);
        }
      }
      r
  }

  // ---------------------------------------------------------------------------
  // Numbers as text

  function DigitChar(d: nat): (c: char)
    requires d < 10
    ensures IsDigit(c) && DigitValue(c) == d
  {
    ('0' as int + d) as char
  }

  /** Number.prototype.toString on a non-negative integer: its decimal digits. */
  function NatToString(n: nat): (r: string)
    ensures |r| >= 1
    ensures forall i :: 0 <= i < |r| ==> IsDigit(r[i])
    ensures RadixValue(r, 10) == n
  {
    if n < 10 then [DigitChar(n)]
    else
      var r := NatToString(n / 10) + [DigitChar(n % 10)];
      assert r[..|r| - 1] == NatToString(n / 10);
      r
  }

  /** Number.prototype.toString on an integer: a minus sign before the digits of a negative one. */
  function IntToString(i: int): (r: string)
    ensures |r| >= 1
    ensures i >= 0 ==> r == NatToString(i)
    ensures i < 0 ==> r == "-" + NatToString(-i)
  {
    if i < 0 then "-" + NatToString(-i) else NatToString(i)
  }

  /** The global parseInt(s) without a radix; None stands for NaN. Leading white space is
      skipped, then one sign, then a "0x"/"0X" prefix switches to base 16; the longest run
      of digits of that base is read and whatever follows it is ignored. */
  function ParseInt(s: string): Option<int>
  {
    var t := s[|Span(s, IsJsSpace)|..];
    var negative := |t| > 0 && t[0] == '-';
    var u := if |t| > 0 && (t[0] == '-' || t[0] == '+') then t[1..] else t;
    var hex := |u| >= 2 && u[0] == '0' && (u[1] == 'x' || u[1] == 'X');
    var digits := if hex then Span(u[2..], IsHexDigit) else Span(u, IsDigit);
    if digits == [] then None
    else
      var v: int := RadixValue(digits, if hex then 16 else 10);
      Some(if negative then -v else v)
  }

  /** Every decimal rendering reads back as the number it renders. */
  lemma ParseIntOfNatToString(n: nat)
    ensures ParseInt(NatToString(n)) == Some(n)
  {
    var s := NatToString(n);
    assert !IsJsSpace(s[0]);
    assert Span(s, IsJsSpace) == [];
    SpanAll(s, IsDigit);
  }

  lemma {:induction false} SpanAll(s: string, p: char -> bool)
    requires forall i :: 0 <= i < |s| ==> p(s[i])
    ensures Span(s, p) == s
  {
    if s != [] {
      SpanAll(s[1..], p);
    }
  }
}
