/** Token normalisation in WordHashTable.processFile:
    `token.toLowerCase().replaceAll("[^a-zA-Z]", "")`, restricted to what
    these two calls do on ASCII characters. */
module Tokens {

  predicate IsUpper(c: char) { 'A' <= c <= 'Z' }

  predicate IsLower(c: char) { 'a' <= c <= 'z' }

  /** The character class `[a-zA-Z]`. */
  predicate IsLetter(c: char) { IsUpper(c) || IsLower(c) }

  /** A normalised word: lower-case ASCII letters only. */
  predicate IsLowerWord(s: string)
  {
    forall i :: 0 <= i < |s| ==> IsLower(s[i])
  }

  function ToLowerChar(c: char): (d: char)
    ensures IsUpper(c) ==> IsLower(d) && d as int - c as int == 'a' as int - 'A' as int
    ensures !IsUpper(c) ==> d == c
  {
    if IsUpper(c) then (c as int - 'A' as int + 'a' as int) as char else c
  }

  /** `String.toLowerCase()` on ASCII: upper-case letters become lower-case,
      every other character stays. */
  function ToLowerCase(s: string): (r: string)
    ensures |r| == |s|
    ensures forall i :: 0 <= i < |s| ==> r[i] == ToLowerChar(s[i])
  {
    if s == [] then [] else [ToLowerChar(s[0])] + ToLowerCase(s[1..])
  }

  /** `replaceAll("[^a-zA-Z]", "")`: every character outside `[a-zA-Z]` is
      deleted, the letters keep their order. */
  function RemoveNonLetters(s: string): (r: string)
    ensures |r| <= |s|
    ensures forall i :: 0 <= i < |r| ==> IsLetter(r[i])
    ensures forall c :: c in s && IsLetter(c) ==> c in r
    ensures forall c :: c in r ==> c in s
    ensures |s| == 1 ==> r == (if IsLetter(s[0]) then s else [])
  {
    if s == [] then []
    else if IsLetter(s[0]) then [s[0]] + RemoveNonLetters(s[1..])
    else RemoveNonLetters(s[1..])
  }

  /** Deleting the non-letters of a concatenation deletes them in each part:
      with the one-character case above this fixes the result completely, the
      letters of the input in their order. */
  lemma {:induction false} RemoveNonLettersAppend(a: string, b: string)
    ensures RemoveNonLetters(a + b) == RemoveNonLetters(a) + RemoveNonLetters(b)
  {
    if a != [] {
      assert (a + b)[0] == a[0];
      assert (a + b)[1..] == a[1..] + b;
      RemoveNonLettersAppend(a[1..], b);
    } else {
      assert a + b == b;
    }
  }

  /** The word that one whitespace-separated token contributes; the empty
      result is discarded by the caller. */
  function Normalise(token: string): (w: string)
    ensures |w| <= |token|
  {
    RemoveNonLetters(ToLowerCase(token))
  }

  /** A normalised token holds only the letters `a` to `z`. */
  lemma NormaliseIsLowerWord(token: string)
    ensures IsLowerWord(Normalise(token))
  {
  }

  /** Normalisation keeps exactly the letters of the token, lower-cased, in
      order: the result is `[ToLowerChar(c) | c <- token, IsLetter(c)]`. */
  function LettersLowered(token: string): string
  {
    if token == [] then []
    else if IsLetter(token[0]) then [ToLowerChar(token[0])] + LettersLowered(token[1..])
    else LettersLowered(token[1..])
  }

  lemma {:induction false} NormaliseIsLettersLowered(token: string)
    ensures Normalise(token) == LettersLowered(token)
  {
    if token != [] {
      assert ToLowerCase(token)[1..] == ToLowerCase(token[1..]);
      assert IsLetter(ToLowerChar(token[0])) <==> IsLetter(token[0]);
      NormaliseIsLettersLowered(token[1..]);
    }
  }

  /** A token is its own normal form exactly when it is already made of
      lower-case letters only. */
  lemma {:induction false} NormaliseFixpoint(token: string)
    ensures Normalise(token) == token <==> IsLowerWord(token)
  {
    NormaliseIsLowerWord(token);
    if IsLowerWord(token) {
      LowerWordIsLettersLowered(token);
      NormaliseIsLettersLowered(token);
    }
  }

  lemma {:induction false} LowerWordIsLettersLowered(s: string)
    requires IsLowerWord(s)
    ensures LettersLowered(s) == s
  {
    if s != [] {
      assert IsLower(s[0]);
      LowerWordIsLettersLowered(s[1..]);
    }
  }

  /** Normalising twice is normalising once. */
  lemma NormaliseIdempotent(token: string)
    ensures Normalise(Normalise(token)) == Normalise(token)
  {
    NormaliseIsLowerWord(token);
    NormaliseFixpoint(Normalise(token));
  }

  /** The distinct words that a token sequence contributes. */
  function NormalisedWords(tokens: seq<string>): (ws: set<string>)
    ensures forall w :: w in ws ==> w != [] && IsLowerWord(w)
    ensures forall t :: t in tokens && Normalise(t) != [] ==> Normalise(t) in ws
    ensures forall w :: w in ws ==> exists t :: t in tokens && Normalise(t) == w
  {
    var ws := set t | t in tokens && Normalise(t) != [] :: Normalise(t);
    forall t | t in tokens { NormaliseIsLowerWord(t); }
    ws
  }
}
