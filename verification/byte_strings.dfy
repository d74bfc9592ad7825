/**
  Byte strings as the server sees them (`Bytes` and `std::string` in the
  source): ASCII lower-casing as done by `strtolower`, and the ordering
  `std::string::operator<` imposes, which is what `std::map` iterates by.
 */
module ByteStrings {

  newtype byte = x: int | 0 <= x < 256

  type Bytes = seq<byte>

  /** The bytes of an ASCII literal such as "ok". */
  function Ascii(s: string): Bytes {
    seq(|s|, i requires 0 <= i < |s| => (s[i] as int % 256) as byte)
  }

  // ---------------------------------------------------------------------------
  // Lower-casing ('A'..'Z' are 65..90, 'a'..'z' are 97..122)
  // ---------------------------------------------------------------------------

  predicate IsUpper(b: byte) {
    65 <= b <= 90
  }

  predicate IsLowerLetter(b: byte) {
    97 <= b <= 122
  }

  /** `tolower` in the "C" locale: only the 26 capital letters change. */
  function LowerByte(b: byte): byte {
    if IsUpper(b) then b + 32 else b
  }

  /**
    `strtolower`: lower-case every byte of a string, in place. The result
    keeps the length and holds no capital letter.
   */
  function Lower(s: Bytes): (r: Bytes)
    ensures |r| == |s| && IsLowerCase(r)
  {
    seq(|s|, i requires 0 <= i < |s| => LowerByte(s[i]))
  }

  /**
    `s` spells the lower-case word `w` with any mix of capitals: the
    reference meaning of comparing `w` with `s` after lower-casing.
   */
  predicate SpellsIgnoringCase(s: Bytes, w: Bytes) {
    && |s| == |w|
    && forall i :: 0 <= i < |s| ==>
         s[i] == w[i] || (IsLowerLetter(w[i]) && s[i] == w[i] - 32)
  }

  predicate IsLowerCase(w: Bytes) {
    forall i :: 0 <= i < |w| ==> !IsUpper(w[i])
  }

  /** Comparing after `strtolower` is exactly case-insensitive spelling. */
  lemma LowerMatchesIgnoringCase(s: Bytes, w: Bytes)
    requires IsLowerCase(w)
    ensures Lower(s) == w <==> SpellsIgnoringCase(s, w)
  {
    if SpellsIgnoringCase(s, w) {
      forall i | 0 <= i < |s|
        ensures Lower(s)[i] == w[i]
      {
        if s[i] != w[i] {
          assert IsUpper(s[i]);
        }
      }
    }
  }

  // ---------------------------------------------------------------------------
  // Ordering
  // ---------------------------------------------------------------------------

  /**
    Strict lexicographic order on bytes compared as unsigned values, a proper
    prefix sorting first: `std::string::operator<` and the order in which a
    `std::map<std::string, _>` is iterated.
   */
  predicate Below(a: Bytes, b: Bytes) {
    if |a| == 0 then |b| > 0
    else |b| > 0 && (a[0] < b[0] || (a[0] == b[0] && Below(a[1..], b[1..])))
  }

  lemma {:induction false} BelowIrreflexive(a: Bytes)
    ensures !Below(a, a)
  {
    if |a| > 0 {
      BelowIrreflexive(a[1..]);
    }
  }

  lemma {:induction false} BelowTransitive(a: Bytes, b: Bytes, c: Bytes)
    requires Below(a, b) && Below(b, c)
    ensures Below(a, c)
  {
    if |a| > 0 && a[0] == b[0] && b[0] == c[0] {
      BelowTransitive(a[1..], b[1..], c[1..]);
    }
  }

  lemma {:induction false} BelowTotal(a: Bytes, b: Bytes)
    ensures a == b || Below(a, b) || Below(b, a)
  {
    if |a| > 0 && |b| > 0 && a[0] == b[0] {
      BelowTotal(a[1..], b[1..]);
      if a[1..] == b[1..] {
        assert a == [a[0]] + a[1..] && b == [b[0]] + b[1..];
      }
    }
  }

  lemma BelowAsymmetric(a: Bytes, b: Bytes)
    requires Below(a, b)
    ensures !Below(b, a)
  {
    if Below(b, a) {
      BelowTransitive(a, b, a);
      BelowIrreflexive(a);
    }
  }
}
