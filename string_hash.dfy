/** The bucket of a word in WordHashTable: `Math.abs(word.hashCode() % tableSize)`,
    with the polynomial `String.hashCode` that the Java platform's `String`
    API documentation defines, evaluated with the `int` wrap-around of
    section 4.2.2 of the Java Language Specification. */
module StringHash {
  import opened JavaInt

  function Pow31(k: nat): nat
  {
    if k == 0 then 1 else 31 * Pow31(k - 1)
  }

  /** The documented value of `s.hashCode()` before wrap-around:
      `s[0]*31^(n-1) + s[1]*31^(n-2) + ... + s[n-1]`, over unbounded integers. */
  function PolyHash(s: string): int
  {
    if s == [] then 0 else (s[0] as int) * Pow31(|s| - 1) + PolyHash(s[1..])
  }

  /** `s.hashCode()` as the platform computes it: `h = 31 * h + c` for each
      character from left to right, in wrapping `int` arithmetic. */
  function HashCode(s: string): (h: Int32)
    ensures s == [] ==> h == 0
    ensures |s| == 1 ==> h == s[0] as int
  {
    if s == [] then 0 else Wrap(31 * HashCode(s[..|s| - 1]) + s[|s| - 1] as int)
  }

  /** Appending one character multiplies the polynomial by 31 and adds the
      character: the Horner step. */
  lemma {:induction false} PolyHashSnoc(s: string, c: char)
    ensures PolyHash(s + [c]) == 31 * PolyHash(s) + c as int
  {
    if s == [] {
      assert [c][1..] == [];
    } else {
      assert (s + [c])[1..] == s[1..] + [c];
      PolyHashSnoc(s[1..], c);
      calc {
        PolyHash(s + [c]);
        (s[0] as int) * Pow31(|s|) + PolyHash(s[1..] + [c]);
        (s[0] as int) * (31 * Pow31(|s| - 1)) + 31 * PolyHash(s[1..]) + c as int;
        { assert (s[0] as int) * (31 * Pow31(|s| - 1)) == 31 * ((s[0] as int) * Pow31(|s| - 1)); }
        31 * PolyHash(s) + c as int;
      }
    }
  }

  /** The wrapping left-to-right computation yields the documented polynomial,
      wrapped to 32 bits. */
  lemma {:induction false} HashCodeIsPolynomial(s: string)
    ensures HashCode(s) == Wrap(PolyHash(s))
  {
    if s != [] {
      var p, c := s[..|s| - 1], s[|s| - 1];
      assert s == p + [c];
      HashCodeIsPolynomial(p);
      PolyHashSnoc(p, c);
      var P := PolyHash(p);
      var k := (P - Wrap(P)) / TWO_POW_32;
      assert P == Wrap(P) + k * TWO_POW_32;
      assert 31 * P + c as int == (31 * Wrap(P) + c as int) + (31 * k) * TWO_POW_32;
      WrapShift(31 * Wrap(P) + c as int, 31 * k);
    }
  }

  /** `Math.abs(h % n)` for a positive table size `n`: the remainder is
      smaller than `n` in magnitude, so `Math.abs` never meets
      `Integer.MIN_VALUE` and the index is `|h| mod n`, a valid slot even for
      `h == Integer.MIN_VALUE`. */
  function SlotIndex(h: Int32, n: Int32): (i: int)
    requires n > 0
    ensures 0 <= i < n
    ensures i == Abs(h) % n
  {
    MathAbs(Rem(h, n))
  }

  /** The slot that WordHashTable assigns to `word` in a table of `n` slots. */
  function Bucket(word: string, n: Int32): (i: int)
    requires n > 0
    ensures 0 <= i < n
  {
    SlotIndex(HashCode(word), n)
  }

  /** The slot of a word in terms of the documented hash polynomial: the
      wrapped polynomial's magnitude modulo the table size. */
  lemma BucketIsPolynomial(word: string, n: Int32)
    requires n > 0
    ensures Bucket(word, n) == Abs(Wrap(PolyHash(word))) % n
  {
    HashCodeIsPolynomial(word);
  }
}
