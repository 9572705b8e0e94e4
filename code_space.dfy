// Counting the codes: there are 10 * 26^3 * 10^3 = 175,760,000 valid codes,
// so a registry holding fewer than that always leaves one unused, and the
// generator's retry loop has something left to find.

module CodeSpace {
  import opened PlateCode

  /** Number of valid codes. */
  const CODE_SPACE: nat := 175_760_000

  predicate NonEmpty(alphabets: seq<string>) {
    forall i :: 0 <= i < |alphabets| ==> |alphabets[i]| > 0
  }

  predicate NoRepeats(a: string) {
    forall i, j :: 0 <= i < j < |a| ==> a[i] != a[j]
  }

  /** Number of strings that take position i from alphabets[i]. */
  function Space(alphabets: seq<string>): nat {
    if alphabets == [] then 1
    else Space(alphabets[..|alphabets| - 1]) * |alphabets[|alphabets| - 1]|
  }

  /** The k-th string over the given alphabets in mixed-radix order: the last
      position varies fastest. */
  function Encode(k: nat, alphabets: seq<string>): (s: string)
    requires NonEmpty(alphabets)
    ensures |s| == |alphabets|
    ensures forall i :: 0 <= i < |s| ==> s[i] in alphabets[i]
    decreases |alphabets|
  {
    if alphabets == [] then []
    else
      var last := alphabets[|alphabets| - 1];
      var prefix := Encode(k / |last|, alphabets[..|alphabets| - 1]);
      var s := prefix + [last[k % |last|]];
      assert forall i :: 0 <= i < |prefix| ==> s[i] == prefix[i];
      s
  }

  lemma QuotientBound(k: nat, m: nat, p: nat)
    requires m > 0 && k < p * m
    ensures k / m < p
  {
  }

  /** Distinct indices below Space give distinct strings. */
  lemma {:induction false} EncodeInjective(k1: nat, k2: nat, alphabets: seq<string>)
    requires NonEmpty(alphabets)
    requires forall i :: 0 <= i < |alphabets| ==> NoRepeats(alphabets[i])
    requires k1 < Space(alphabets) && k2 < Space(alphabets)
    requires Encode(k1, alphabets) == Encode(k2, alphabets)
    ensures k1 == k2
    decreases |alphabets|
  {
    if alphabets != [] {
      var n := |alphabets| - 1;
      var init, last := alphabets[..n], alphabets[n];
      var m := |last|;
      var e1, e2 := Encode(k1, alphabets), Encode(k2, alphabets);
      assert e1[n] == last[k1 % m] && e2[n] == last[k2 % m];
      assert k1 % m == k2 % m;
      assert e1[..n] == Encode(k1 / m, init) && e2[..n] == Encode(k2 / m, init);
      QuotientBound(k1, m, Space(init));
      QuotientBound(k2, m, Space(init));
      EncodeInjective(k1 / m, k2 / m, init);
      assert k1 == (k1 / m) * m + k1 % m;
      assert k2 == (k2 / m) * m + k2 % m;
    }
  }

  /** The first n strings in mixed-radix order. */
  function Image(n: nat, alphabets: seq<string>): set<string>
    requires NonEmpty(alphabets)
  {
    if n == 0 then {} else Image(n - 1, alphabets) + {Encode(n - 1, alphabets)}
  }

  lemma {:induction false} ImageMember(n: nat, alphabets: seq<string>, s: string)
    requires NonEmpty(alphabets)
    requires s in Image(n, alphabets)
    ensures exists j :: 0 <= j < n && Encode(j, alphabets) == s
  {
    if s != Encode(n - 1, alphabets) {
      ImageMember(n - 1, alphabets, s);
    }
  }

  /** The n-th string is not among the first n. */
  lemma EncodeFresh(n: nat, alphabets: seq<string>)
    requires NonEmpty(alphabets)
    requires forall i :: 0 <= i < |alphabets| ==> NoRepeats(alphabets[i])
    requires n < Space(alphabets)
    ensures Encode(n, alphabets) !in Image(n, alphabets)
  {
    var e := Encode(n, alphabets);
    if e in Image(n, alphabets) {
      ImageMember(n, alphabets, e);
      var j :| 0 <= j < n && Encode(j, alphabets) == e;
      EncodeInjective(j, n, alphabets);
    }
  }

  lemma {:induction false} ImageSize(n: nat, alphabets: seq<string>)
    requires NonEmpty(alphabets)
    requires forall i :: 0 <= i < |alphabets| ==> NoRepeats(alphabets[i])
    requires n <= Space(alphabets)
    ensures |Image(n, alphabets)| == n
  {
    if n > 0 {
      ImageSize(n - 1, alphabets);
      EncodeFresh(n - 1, alphabets);
    }
  }

  lemma PositionsCount()
    ensures NonEmpty(Positions())
    ensures forall i :: 0 <= i < |Positions()| ==> NoRepeats(Positions()[i])
    ensures Space(Positions()) == CODE_SPACE
  {
    var p := Positions();
    assert p[..6][..5][..4][..3][..2][..1][..0] == [];
    assert Space(p[..1]) == 10;
    assert p[..2][..1] == p[..1];
    assert Space(p[..2]) == 260;
    assert p[..3][..2] == p[..2];
    assert Space(p[..3]) == 6760;
    assert p[..4][..3] == p[..3];
    assert Space(p[..4]) == 175760;
    assert p[..5][..4] == p[..4];
    assert Space(p[..5]) == 1757600;
    assert p[..6][..5] == p[..5];
    assert Space(p[..6]) == 17576000;
    assert p[..7] == p;
  }

  lemma SubsetSize(a: set<string>, b: set<string>)
    requires a <= b
    ensures |a| <= |b|
  {
    assert b == a + (b - a);
    assert a * (b - a) == {};
  }

  /** A set smaller than the space of strings over some alphabets misses one of them. */
  lemma UnusedStringExists(alphabets: seq<string>, used: set<string>)
    requires NonEmpty(alphabets)
    requires forall i :: 0 <= i < |alphabets| ==> NoRepeats(alphabets[i])
    requires |used| < Space(alphabets)
    ensures exists c :: c !in used && |c| == |alphabets| &&
                        forall i :: 0 <= i < |c| ==> c[i] in alphabets[i]
  {
    var all := Image(Space(alphabets), alphabets);
    ImageSize(Space(alphabets), alphabets);
    if all <= used {
      SubsetSize(all, used);
    }
    var c :| c in all && c !in used;
    ImageMember(Space(alphabets), alphabets, c);
  }

  /** Fewer than CODE_SPACE codes in use leaves a valid code unused. */
  lemma UnusedCodeExists(used: set<string>)
    requires |used| < CODE_SPACE
    ensures exists c :: ValidCode(c) && c !in used
  {
    PositionsCount();
    UnusedStringExists(Positions(), used);
    var c :| c !in used && |c| == |Positions()| &&
             forall i :: 0 <= i < |c| ==> c[i] in Positions()[i];
    forall i | 0 <= i < |c| ensures FitsPosition(i, c[i]) {
      AlphabetClass(i, c[i]);
    }
    ValidCodeByPositions(c);
  }
}
