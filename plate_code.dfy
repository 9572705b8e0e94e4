// The shape of a licence plate code and how one is drawn at random:
// one digit, three upper-case letters, three digits ("6LZD666").

module PlateCode {

  /** Length of every code. */
  const CODE_LENGTH: nat := 7

  /** The ten digit characters, in order: the i-th has character code i + 48. */
  function Digits(): (s: string)
    ensures |s| == 10
  {
    seq(10, i requires 0 <= i < 10 => (48 + i) as char)
  }

  /** The twenty-six upper-case letters, in order: the i-th has character code i + 65. */
  function Letters(): (s: string)
    ensures |s| == 26
  {
    seq(26, i requires 0 <= i < 26 => (65 + i) as char)
  }

  predicate IsDigit(c: char) {
    '0' <= c <= '9'
  }

  predicate IsUpperLetter(c: char) {
    'A' <= c <= 'Z'
  }

  /** The character class of position i of a code: a digit first and last
      three, an upper-case letter in between. */
  predicate FitsPosition(i: nat, c: char) {
    if i == 0 || i >= 4 then IsDigit(c) else IsUpperLetter(c)
  }

  /** A valid code: a digit, three upper-case letters, then three digits. */
  predicate ValidCode(s: string) {
    |s| == CODE_LENGTH &&
    IsDigit(s[0]) && IsUpperLetter(s[1]) && IsUpperLetter(s[2]) && IsUpperLetter(s[3]) &&
    IsDigit(s[4]) && IsDigit(s[5]) && IsDigit(s[6])
  }

  /** The alphabet position k of a code draws from. */
  function Alphabet(k: nat): string {
    if k == 0 || k >= 4 then Digits() else Letters()
  }

  /** The alphabets of the seven positions, in order. */
  function Positions(): (p: seq<string>)
    ensures |p| == CODE_LENGTH
  {
    seq(CODE_LENGTH, k requires 0 <= k < CODE_LENGTH => Alphabet(k))
  }

  /** The digit alphabet holds exactly the characters '0'..'9'. */
  lemma DigitsExactly(c: char)
    ensures c in Digits() <==> IsDigit(c)
  {
    if IsDigit(c) {
      assert Digits()[c as int - 48] == c;
    }
  }

  /** The letter alphabet holds exactly the characters 'A'..'Z'. */
  lemma LettersExactly(c: char)
    ensures c in Letters() <==> IsUpperLetter(c)
  {
    if IsUpperLetter(c) {
      assert Letters()[c as int - 65] == c;
    }
  }

  /** A character is in the alphabet of position k exactly when it is of
      that position's class. */
  lemma AlphabetClass(k: nat, c: char)
    ensures c in Alphabet(k) <==> FitsPosition(k, c)
  {
    if k == 0 || k >= 4 {
      DigitsExactly(c);
    } else {
      LettersExactly(c);
    }
  }

  /** A code is valid exactly when it has seven characters, each of its
      position's class. */
  lemma ValidCodeByPositions(s: string)
    ensures ValidCode(s) <==>
            (|s| == CODE_LENGTH && forall i :: 0 <= i < |s| ==> FitsPosition(i, s[i]))
  {
    if |s| == CODE_LENGTH && !ValidCode(s) {
      assert !(FitsPosition(0, s[0]) && FitsPosition(1, s[1]) && FitsPosition(2, s[2]) &&
               FitsPosition(3, s[3]) && FitsPosition(4, s[4]) && FitsPosition(5, s[5]) &&
               FitsPosition(6, s[6]));
    }
  }

  /** Indices, one per leading position of a code, each within its
      position's alphabet. */
  predicate IndicesFit(rs: seq<nat>) {
    |rs| <= CODE_LENGTH && forall k :: 0 <= k < |rs| ==> rs[k] < |Alphabet(k)|
  }

  /** The seven random indices one candidate code consumes, in the
      left-to-right order in which its characters are drawn. */
  predicate ValidDraw(d: seq<nat>) {
    |d| == CODE_LENGTH && IndicesFit(d)
  }

  /** Picks the item at a randomly chosen index of a non-empty array. */
  function RandomItem(arr: string, i: nat): (c: char)
    requires i < |arr|
    ensures c in arr
  {
    arr[i]
  }

  /** The candidate code built from the random indices rs (the first |rs|
      characters of it when rs is shorter than a draw): each character is a
      random item of its position's alphabet, concatenated left to right. */
  function BuildLicenseNumber(rs: seq<nat>): (s: string)
    requires IndicesFit(rs)
    ensures |s| == |rs|
    ensures forall i :: 0 <= i < |s| ==> FitsPosition(i, s[i])
  {
    if rs == [] then []
    else
      var n := |rs| - 1;
      var prefix := BuildLicenseNumber(rs[..n]);
      var c := RandomItem(Alphabet(n), rs[n]);
      AlphabetClass(n, c);
      var s := prefix + [c];
      assert forall i :: 0 <= i < n ==> s[i] == prefix[i];
      s
  }

  /** Every candidate built from a full draw is a valid code. */
  lemma BuildIsValid(d: seq<nat>)
    requires ValidDraw(d)
    ensures ValidCode(BuildLicenseNumber(d))
  {
    ValidCodeByPositions(BuildLicenseNumber(d));
  }

  /** Building from one more index appends one character, drawn from the
      next position's alphabet. */
  lemma BuildSnoc(rs: seq<nat>, r: nat)
    requires IndicesFit(rs) && |rs| < CODE_LENGTH && r < |Alphabet(|rs|)|
    ensures IndicesFit(rs + [r])
    ensures BuildLicenseNumber(rs + [r]) ==
            BuildLicenseNumber(rs) + [RandomItem(Alphabet(|rs|), r)]
  {
    assert (rs + [r])[..|rs|] == rs;
  }

  lemma LastSplit<T>(s: seq<T>)
    requires |s| > 0
    ensures s == s[..|s| - 1] + [s[|s| - 1]]
  {
  }

  /** The position of c in arr. */
  function IndexOf(arr: string, c: char): (i: nat)
    requires c in arr
    ensures i < |arr| && arr[i] == c
  {
    if arr[0] == c then 0 else 1 + IndexOf(arr[1..], c)
  }

  /** Random indices that build the given code (or prefix of a code): every
      valid code can be generated. */
  function DrawFor(s: string): (rs: seq<nat>)
    requires |s| <= CODE_LENGTH
    requires forall i :: 0 <= i < |s| ==> FitsPosition(i, s[i])
    ensures |rs| == |s| && IndicesFit(rs) && BuildLicenseNumber(rs) == s
  {
    if s == [] then []
    else
      var n := |s| - 1;
      var prefix := DrawFor(s[..n]);
      var arr := Alphabet(n);
      AlphabetClass(n, s[n]);
      var i := IndexOf(arr, s[n]);
      BuildSnoc(prefix, i);
      LastSplit(s);
      prefix + [i]
  }

  /** Every valid code is the candidate of some draw. */
  lemma EveryCodeIsDrawable(s: string)
    requires ValidCode(s)
    ensures exists d :: ValidDraw(d) && BuildLicenseNumber(d) == s
  {
    ValidCodeByPositions(s);
    var d := DrawFor(s);
    assert ValidDraw(d);
  }
}
