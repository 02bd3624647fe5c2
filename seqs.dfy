/** Operations on lists of names (user names, socket ids) shared by the client and the server. */
module Seqs {

  /** No element occurs twice. */
  predicate NoDup(s: seq<string>) {
    forall i, j :: 0 <= i < j < |s| ==> s[i] != s[j]
  }

  lemma NoDupCons(h: string, t: seq<string>)
    ensures NoDup([h] + t) <==> h !in t && NoDup(t)
  {
    var s := [h] + t;
    if h in t {
      var k :| 0 <= k < |t| && t[k] == h;
      assert s[0] == s[k + 1];
    } else if NoDup(t) {
      forall i, j | 0 <= i < j < |s| ensures s[i] != s[j] {
        if i > 0 { assert s[i] == t[i - 1] && s[j] == t[j - 1]; }
        else { assert s[j] == t[j - 1]; }
      }
    } else {
      var i, j :| 0 <= i < j < |t| && t[i] == t[j];
      assert s[i + 1] == s[j + 1];
    }
  }

  lemma NoDupSnoc(p: seq<string>, x: string)
    ensures NoDup(p + [x]) <==> x !in p && NoDup(p)
  {
    var s := p + [x];
    if x in p {
      var k :| 0 <= k < |p| && p[k] == x;
      assert s[k] == s[|p|];
    } else if !NoDup(p) {
      var i, j :| 0 <= i < j < |p| && p[i] == p[j];
      assert s[i] == s[j];
    }
  }

  /** `s.filter(u => u !== x)`: every occurrence of `x` dropped, the rest kept in order. */
  function Without(s: seq<string>, x: string): (r: seq<string>)
    ensures forall y :: y in r <==> y in s && y != x
    ensures |r| <= |s|
  {
    if s == [] then [] else (if s[0] == x then [] else [s[0]]) + Without(s[1..], x)
  }

  /** Removing an absent element changes nothing. */
  lemma {:induction false} WithoutAbsent(s: seq<string>, x: string)
    requires x !in s
    ensures Without(s, x) == s
  {
    if s != [] {
      assert s[0] in s;
      assert forall y :: y in s[1..] ==> y in s;
      WithoutAbsent(s[1..], x);
    }
  }

  /** Removal distributes over concatenation, so the survivors keep their relative order. */
  lemma {:induction false} WithoutConcat(a: seq<string>, b: seq<string>, x: string)
    ensures Without(a + b, x) == Without(a, x) + Without(b, x)
  {
    if a == [] {
      assert a + b == b;
    } else {
      assert (a + b)[0] == a[0];
      assert (a + b)[1..] == a[1..] + b;
      WithoutConcat(a[1..], b, x);
    }
  }

  /** Removing twice is removing once. */
  lemma WithoutIdempotent(s: seq<string>, x: string)
    ensures Without(Without(s, x), x) == Without(s, x)
  {
    WithoutAbsent(Without(s, x), x);
  }

  /** Removal never introduces a duplicate. */
  lemma {:induction false} WithoutKeepsNoDup(s: seq<string>, x: string)
    requires NoDup(s)
    ensures NoDup(Without(s, x))
  {
    if s != [] {
      assert s == [s[0]] + s[1..];
      NoDupCons(s[0], s[1..]);
      WithoutKeepsNoDup(s[1..], x);
      if s[0] != x {
        NoDupCons(s[0], Without(s[1..], x));
      }
    }
  }

  /**
   * `[...new Set(s)]`: a `Set` is filled in iteration order and ignores an element it already holds,
   * so the result lists the elements of `s` in order of first occurrence.
   */
  function Distinct(s: seq<string>): (r: seq<string>)
    ensures NoDup(r)
    ensures forall y :: y in r <==> y in s
  {
    if s == [] then []
    else
      var d := Distinct(s[..|s| - 1]);
      assert forall y :: y in s[..|s| - 1] ==> y in s;
      assert s == s[..|s| - 1] + [s[|s| - 1]];
      if s[|s| - 1] in d then d
      else
        NoDupSnoc(d, s[|s| - 1]);
        d + [s[|s| - 1]]
  }

  /** A list without duplicates survives the round trip through a `Set` unchanged. */
  lemma {:induction false} DistinctOfNoDup(s: seq<string>)
    requires NoDup(s)
    ensures Distinct(s) == s
  {
    if s != [] {
      var p, x := s[..|s| - 1], s[|s| - 1];
      assert s == p + [x];
      NoDupSnoc(p, x);
      DistinctOfNoDup(p);
    }
  }

  /** In a list without duplicates, removing `x` cuts out the one position that holds it. */
  lemma {:induction false} WithoutAt(s: seq<string>, i: int)
    requires NoDup(s) && 0 <= i < |s|
    ensures Without(s, s[i]) == s[..i] + s[i + 1..]
  {
    assert s == [s[0]] + s[1..];
    NoDupCons(s[0], s[1..]);
    if i == 0 {
      WithoutAbsent(s[1..], s[0]);
    } else {
      assert s[1..][i - 1] == s[i];
      WithoutAt(s[1..], i - 1);
      assert s[1..][..i - 1] == s[1..i];
      assert s[1..][i..] == s[i + 1..];
      assert s[..i] == [s[0]] + s[1..i];
    }
  }
}
