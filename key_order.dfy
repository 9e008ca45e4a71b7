/**
 * The order `Array.prototype.sort` puts strings in when it is given no
 * comparator: lexicographic on UTF-16 code units (ECMA-262, section
 * 23.1.3.30.2, and IsLessThan on strings, section 7.2.13).
 */
module KeyOrder {

  /** The UTF-16 code units of one character: one, or a surrogate pair. */
  function CodeUnits(c: char): (u: seq<int>)
    ensures 1 <= |u| <= 2
  {
    var cp := c as int;
    if cp < 0x10000 then [cp]
    else [0xD800 + (cp - 0x10000) / 0x400, 0xDC00 + (cp - 0x10000) % 0x400]
  }

  /** The UTF-16 code units of a string, as a JavaScript engine stores them. */
  function Utf16(s: string): seq<int> {
    if s == [] then [] else CodeUnits(s[0]) + Utf16(s[1..])
  }

  /** The first code unit tells a surrogate pair from a single unit, so the per-character encoding is prefix-free. */
  lemma CodeUnitsPrefixFree(a: char, b: char, x: seq<int>, y: seq<int>)
    requires CodeUnits(a) + x == CodeUnits(b) + y
    ensures a == b && x == y
  {
    var ua, ub := CodeUnits(a), CodeUnits(b);
    assert ua[0] == (ua + x)[0] == (ub + y)[0] == ub[0];
    if |ua| == 2 {
      assert (ua + x)[1] == (ub + y)[1];
      var p, q := a as int - 0x10000, b as int - 0x10000;
      assert p == (p / 0x400) * 0x400 + p % 0x400;
      assert q == (q / 0x400) * 0x400 + q % 0x400;
    }
    assert ua + x == ub + y;
    assert x == (ua + x)[|ua|..] == (ub + y)[|ub|..] == y;
  }

  /** Different strings have different UTF-16 encodings. */
  lemma {:induction false} Utf16Injective(a: string, b: string)
    requires Utf16(a) == Utf16(b)
    ensures a == b
  {
    if a != [] && b != [] {
      CodeUnitsPrefixFree(a[0], b[0], Utf16(a[1..]), Utf16(b[1..]));
      Utf16Injective(a[1..], b[1..]);
      assert a == [a[0]] + a[1..] && b == [b[0]] + b[1..];
    }
  }

  /** Lexicographic order on code-unit sequences; a proper prefix comes first. */
  predicate Below(x: seq<int>, y: seq<int>) {
    if x == [] then y != []
    else y != [] && (x[0] < y[0] || (x[0] == y[0] && Below(x[1..], y[1..])))
  }

  lemma {:induction false} BelowIrreflexive(x: seq<int>)
    ensures !Below(x, x)
  {
    if x != [] { BelowIrreflexive(x[1..]); }
  }

  lemma {:induction false} BelowTransitive(x: seq<int>, y: seq<int>, z: seq<int>)
    requires Below(x, y) && Below(y, z)
    ensures Below(x, z)
  {
    if x != [] && x[0] == y[0] && y[0] == z[0] {
      BelowTransitive(x[1..], y[1..], z[1..]);
    }
  }

  lemma {:induction false} BelowTotal(x: seq<int>, y: seq<int>)
    requires x != y
    ensures Below(x, y) || Below(y, x)
  {
    if x != [] && y != [] && x[0] == y[0] {
      assert x == [x[0]] + x[1..] && y == [y[0]] + y[1..];
      BelowTotal(x[1..], y[1..]);
    }
  }

  /** `a` sorts strictly before `b`. */
  predicate Less(a: string, b: string) {
    Below(Utf16(a), Utf16(b))
  }

  /** `Less` is a strict total order on strings. */
  lemma LessIsStrictTotalOrder(a: string, b: string, c: string)
    ensures !Less(a, a)
    ensures Less(a, b) && Less(b, c) ==> Less(a, c)
    ensures a != b ==> Less(a, b) || Less(b, a)
  {
    BelowIrreflexive(Utf16(a));
    if Less(a, b) && Less(b, c) { BelowTransitive(Utf16(a), Utf16(b), Utf16(c)); }
    if a != b {
      if Utf16(a) == Utf16(b) { Utf16Injective(a, b); }
      BelowTotal(Utf16(a), Utf16(b));
    }
  }

  lemma LessAsymmetric(a: string, b: string)
    requires Less(a, b)
    ensures !Less(b, a)
  {
    LessIsStrictTotalOrder(a, b, a);
  }

  /** Strictly ascending: every key sorts before every later key. */
  predicate Ascending(s: seq<string>) {
    forall i, j :: 0 <= i < j < |s| ==> Less(s[i], s[j])
  }

  predicate Distinct(s: seq<string>) {
    forall i, j :: 0 <= i < j < |s| ==> s[i] != s[j]
  }

  /** Puts `k` into an ascending sequence in front of the first key that does not sort before it. */
  function Insert(k: string, s: seq<string>): (r: seq<string>)
    ensures |r| == |s| + 1
  {
    if s == [] then [k]
    else if Less(s[0], k) then [s[0]] + Insert(k, s[1..])
    else [k] + s
  }

  /** `keys.sort()` with the default comparator, as an insertion sort. */
  function Sort(keys: seq<string>): (r: seq<string>)
    ensures |r| == |keys|
  {
    if keys == [] then [] else Insert(keys[0], Sort(keys[1..]))
  }

  lemma {:induction false} InsertMultiset(k: string, s: seq<string>)
    ensures multiset(Insert(k, s)) == multiset(s) + multiset{k}
  {
    if s != [] && Less(s[0], k) {
      InsertMultiset(k, s[1..]);
      assert s == [s[0]] + s[1..];
    }
  }

  /** The first key of the inserted-into tail still sorts before everything after it. */
  lemma HeadBelowInsert(k: string, s: seq<string>)
    requires Ascending(s) && s != [] && Less(s[0], k)
    ensures forall j :: 0 <= j < |Insert(k, s[1..])| ==> Less(s[0], Insert(k, s[1..])[j])
  {
    var r := Insert(k, s[1..]);
    InsertMultiset(k, s[1..]);
    forall j | 0 <= j < |r| ensures Less(s[0], r[j]) {
      assert r[j] in multiset(r);
      if r[j] != k {
        var m :| 0 <= m < |s[1..]| && s[1..][m] == r[j];
        assert s[1..][m] == s[m + 1];
      }
    }
  }

  lemma {:induction false} InsertKeeps(k: string, s: seq<string>)
    requires Ascending(s) && k !in s
    ensures Ascending(Insert(k, s))
    ensures multiset(Insert(k, s)) == multiset(s) + multiset{k}
  {
    InsertMultiset(k, s);
    if s != [] {
      if Less(s[0], k) {
        AscendingTail(s);
        InsertKeeps(k, s[1..]);
        HeadBelowInsert(k, s);
      } else {
        forall j | 0 <= j < |s| ensures Less(k, s[j]) {
          LessIsStrictTotalOrder(k, s[0], s[j]);
          if j > 0 { assert Less(s[0], s[j]); }
        }
      }
    }
  }

  /** Sorting distinct keys gives them back in ascending order, each exactly once. */
  lemma {:induction false} SortIsAscendingPermutation(keys: seq<string>)
    requires Distinct(keys)
    ensures Ascending(Sort(keys))
    ensures multiset(Sort(keys)) == multiset(keys)
  {
    if keys != [] {
      var rest := keys[1..];
      assert Distinct(rest) by {
        forall i, j | 0 <= i < j < |rest| ensures rest[i] != rest[j] { assert rest[i] == keys[i + 1] && rest[j] == keys[j + 1]; }
      }
      SortIsAscendingPermutation(rest);
      assert keys[0] !in rest by {
        forall m | 0 <= m < |rest| ensures rest[m] != keys[0] { assert rest[m] == keys[m + 1]; }
      }
      assert keys[0] !in multiset(Sort(rest));
      InsertKeeps(keys[0], Sort(rest));
      assert keys == [keys[0]] + rest;
    }
  }

  lemma AscendingTail(s: seq<string>)
    requires Ascending(s) && s != []
    ensures Ascending(s[1..])
  {
    forall i, j | 0 <= i < j < |s[1..]| ensures Less(s[1..][i], s[1..][j]) {
      assert s[1..][i] == s[i + 1] && s[1..][j] == s[j + 1];
    }
  }

  lemma MultisetTail(s: seq<string>)
    requires s != []
    ensures multiset(s[1..]) == multiset(s) - multiset{s[0]}
  {
    assert s == [s[0]] + s[1..];
  }

  /** The first key of an ascending sequence is its least key. */
  lemma AscendingSameHead(s: seq<string>, t: seq<string>)
    requires Ascending(s) && Ascending(t) && s != [] && t != []
    requires multiset(s) == multiset(t)
    ensures s[0] == t[0]
  {
    assert s[0] in multiset(t) && t[0] in multiset(s);
    if s[0] != t[0] {
      var i :| 0 <= i < |t| && t[i] == s[0];
      var j :| 0 <= j < |s| && s[j] == t[0];
      assert Less(t[0], s[0]) && Less(s[0], t[0]);
      LessAsymmetric(t[0], s[0]);
    }
  }

  /** Two ascending sequences of the same keys are the same sequence. */
  lemma {:induction false} AscendingIsUnique(s: seq<string>, t: seq<string>)
    requires Ascending(s) && Ascending(t)
    requires multiset(s) == multiset(t)
    ensures s == t
  {
    if s != [] && t != [] {
      AscendingSameHead(s, t);
      MultisetTail(s);
      MultisetTail(t);
      AscendingTail(s);
      AscendingTail(t);
      AscendingIsUnique(s[1..], t[1..]);
      assert s == [s[0]] + s[1..] && t == [t[0]] + t[1..];
    } else {
      assert |s| == |multiset(s)| == |multiset(t)| == |t|;
    }
  }

  /**
   * The order keys were inserted in does not matter: sorting two duplicate-free
   * enumerations of the same keys gives the same sequence.
   */
  lemma SortIgnoresOrder(a: seq<string>, b: seq<string>)
    requires Distinct(a) && Distinct(b)
    requires multiset(a) == multiset(b)
    ensures Sort(a) == Sort(b)
  {
    SortIsAscendingPermutation(a);
    SortIsAscendingPermutation(b);
    AscendingIsUnique(Sort(a), Sort(b));
  }
}
