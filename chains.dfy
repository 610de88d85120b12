/** The abstract state of WordHashTable and what its operations do to it:
    `tableSize` slots, slot `i` an ordered chain of distinct words whose
    bucket is `i`. The class in word_hash_table.dfy keeps these chains in an
    array and is proved against the functions here. */
module Chains {
  import opened JavaInt
  import opened StringHash
  import Tokens

  /** Slot `i` holds the chain `hashTable[i]`. */
  type Slots = seq<seq<string>>

  /** The state the constructor builds: `n` empty chains. */
  function Empty(n: nat): (s: Slots)
    ensures |s| == n
    ensures forall i :: 0 <= i < n ==> s[i] == []
  {
    seq(n, _ => [])
  }

  predicate Distinct(chain: seq<string>)
  {
    forall j, k :: 0 <= j < k < |chain| ==> chain[j] != chain[k]
  }

  /** The table invariant: every word sits in the slot of its bucket and no
      chain holds a word twice. */
  predicate Valid(s: Slots, n: Int32)
  {
    && 0 < n
    && |s| == n
    && (forall i, j :: 0 <= i < |s| && 0 <= j < |s[i]| ==> Bucket(s[i][j], n) == i)
    && (forall i :: 0 <= i < |s| ==> Distinct(s[i]))
  }

  function ChainWords(chain: seq<string>): set<string>
  {
    set w | w in chain
  }

  /** The set of words stored in the table. */
  function Words(s: Slots): set<string>
  {
    if s == [] then {} else Words(s[..|s| - 1]) + ChainWords(s[|s| - 1])
  }

  lemma {:induction false} WordsMember(s: Slots, w: string)
    ensures w in Words(s) <==> exists i :: 0 <= i < |s| && w in s[i]
  {
    if s != [] {
      var p := s[..|s| - 1];
      WordsMember(p, w);
      if w in Words(p) {
        var i :| 0 <= i < |p| && w in p[i];
        assert s[i] == p[i];
      }
      if exists i :: 0 <= i < |s| && w in s[i] {
        var i :| 0 <= i < |s| && w in s[i];
        if i < |p| { assert w in p[i]; }
      }
    }
  }

  /** A freshly constructed table satisfies the invariant and holds no word. */
  lemma EmptyIsValid(n: Int32)
    requires 0 < n
    ensures Valid(Empty(n), n)
    ensures Words(Empty(n)) == {}
  {
    forall w ensures w !in Words(Empty(n)) {
      WordsMember(Empty(n), w);
    }
  }

  /** Set semantics over the whole table: a word occurs at one position of
      one chain at most. */
  lemma NoDuplicates(s: Slots, n: Int32, i1: int, j1: int, i2: int, j2: int)
    requires Valid(s, n)
    requires 0 <= i1 < |s| && 0 <= j1 < |s[i1]|
    requires 0 <= i2 < |s| && 0 <= j2 < |s[i2]|
    requires s[i1][j1] == s[i2][j2]
    ensures i1 == i2 && j1 == j2
  {
  }

  /** A word is in the table exactly when it is in the chain of its bucket,
      so scanning that one chain decides membership. */
  lemma WordInOwnSlot(s: Slots, n: Int32, w: string)
    requires Valid(s, n)
    ensures w in Words(s) <==> w in s[Bucket(w, n)]
  {
    WordsMember(s, w);
    if w in Words(s) {
      var i :| 0 <= i < |s| && w in s[i];
      var j :| 0 <= j < |s[i]| && s[i][j] == w;
      assert Bucket(s[i][j], n) == i;
    }
  }

  /** `addToHashTable(word)`: append `word` to the chain of its bucket unless
      that chain already contains it. */
  function Insert(s: Slots, w: string, n: Int32): (r: Slots)
    requires 0 < n && |s| == n
    ensures |r| == n
  {
    var b := Bucket(w, n);
    if w in s[b] then s else s[b := s[b] + [w]]
  }

  /** Where insertion puts a word: afterwards it is in the chain of its
      bucket; an absent word goes at the end of that chain; a word already
      anywhere in the table leaves the table as it was; no other chain
      changes. */
  lemma InsertPlacement(s: Slots, w: string, n: Int32)
    requires Valid(s, n)
    ensures var r, b := Insert(s, w, n), Bucket(w, n);
      && w in r[b]
      && (w in Words(s) ==> r == s)
      && (w !in Words(s) ==> r[b] == s[b] + [w])
      && forall i :: 0 <= i < n && i != b ==> r[i] == s[i]
  {
    WordInOwnSlot(s, n, w);
  }

  /** Insertion never reorders or removes: every chain before is a prefix of
      the same chain after. */
  lemma InsertKeepsOrder(s: Slots, w: string, n: Int32)
    requires 0 < n && |s| == n
    ensures forall i :: 0 <= i < n ==>
      |s[i]| <= |Insert(s, w, n)[i]| && Insert(s, w, n)[i][..|s[i]|] == s[i]
  {
  }

  /** Insertion preserves the invariant and adds exactly the inserted word. */
  lemma InsertKeepsValid(s: Slots, w: string, n: Int32)
    requires Valid(s, n)
    ensures Valid(Insert(s, w, n), n)
    ensures Words(Insert(s, w, n)) == Words(s) + {w}
  {
    var r, b := Insert(s, w, n), Bucket(w, n);
    forall i | 0 <= i < n ensures Distinct(r[i]) {
      if i == b && w !in s[b] {
        assert r[i] == s[b] + [w];
        assert Distinct(s[b]);
      } else {
        assert r[i] == s[i];
      }
    }
    forall x ensures x in Words(r) <==> x in Words(s) + {w} {
      WordsMember(r, x);
      WordsMember(s, x);
      if x in Words(r) {
        var i :| 0 <= i < |r| && x in r[i];
        if x != w { assert x in s[i]; }
      }
      if x == w { assert w in r[b]; }
      if x in Words(s) {
        var i :| 0 <= i < |s| && x in s[i];
        assert s[i] <= r[i] || x in r[i];
      }
    }
  }

  /** Inserting the same word again changes nothing. */
  lemma InsertIdempotent(s: Slots, w: string, n: Int32)
    requires 0 < n && |s| == n
    ensures Insert(Insert(s, w, n), w, n) == Insert(s, w, n)
  {
  }

  /** One iteration of the token loop of `processFile`: normalise the token
      and insert it unless it became empty. */
  function Step(s: Slots, token: string, n: Int32): (r: Slots)
    requires 0 < n && |s| == n
    ensures |r| == n
  {
    var w := Tokens.Normalise(token);
    if w == [] then s else Insert(s, w, n)
  }

  /** The token loop of `processFile` over an already split token sequence. */
  function Process(s: Slots, tokens: seq<string>, n: Int32): (r: Slots)
    requires 0 < n && |s| == n
    ensures |r| == n
  {
    if tokens == [] then s
    else Step(Process(s, tokens[..|tokens| - 1], n), tokens[|tokens| - 1], n)
  }

  lemma NormalisedWordsSnoc(tokens: seq<string>, t: string)
    ensures Tokens.NormalisedWords(tokens + [t])
         == Tokens.NormalisedWords(tokens)
            + (if Tokens.Normalise(t) == [] then {} else {Tokens.Normalise(t)})
  {
  }

  /** After the token loop the table still satisfies the invariant and holds
      its previous words plus every non-empty normalised token, and nothing
      else. */
  lemma {:induction false} ProcessContents(s: Slots, tokens: seq<string>, n: Int32)
    requires Valid(s, n)
    ensures Valid(Process(s, tokens, n), n)
    ensures Words(Process(s, tokens, n)) == Words(s) + Tokens.NormalisedWords(tokens)
  {
    if tokens != [] {
      var p, t := tokens[..|tokens| - 1], tokens[|tokens| - 1];
      assert tokens == p + [t];
      ProcessContents(s, p, n);
      NormalisedWordsSnoc(p, t);
      var w := Tokens.Normalise(t);
      if w != [] {
        InsertKeepsValid(Process(s, p, n), w, n);
      }
    }
  }

  /** Tokens whose words are all present already leave the table unchanged;
      in particular, processing the same tokens a second time changes
      nothing. */
  lemma {:induction false} ProcessPresent(s: Slots, tokens: seq<string>, n: Int32)
    requires Valid(s, n)
    requires Tokens.NormalisedWords(tokens) <= Words(s)
    ensures Process(s, tokens, n) == s
  {
    if tokens != [] {
      var p, t := tokens[..|tokens| - 1], tokens[|tokens| - 1];
      assert tokens == p + [t];
      NormalisedWordsSnoc(p, t);
      ProcessPresent(s, p, n);
      var w := Tokens.Normalise(t);
      if w != [] {
        InsertPlacement(s, w, n);
      }
    }
  }

  lemma ProcessIdempotent(s: Slots, tokens: seq<string>, n: Int32)
    requires Valid(s, n)
    ensures Process(Process(s, tokens, n), tokens, n) == Process(s, tokens, n)
  {
    ProcessContents(s, tokens, n);
    ProcessPresent(Process(s, tokens, n), tokens, n);
  }

  /** The words fed to insertion, in input order: the non-empty normalised
      tokens. */
  function Fed(tokens: seq<string>): (ws: seq<string>)
    ensures forall i :: 0 <= i < |ws| ==> ws[i] != [] && Tokens.IsLowerWord(ws[i])
  {
    if tokens == [] then []
    else
      var w := Tokens.Normalise(tokens[|tokens| - 1]);
      Tokens.NormaliseIsLowerWord(tokens[|tokens| - 1]);
      Fed(tokens[..|tokens| - 1]) + (if w == [] then [] else [w])
  }

  /** The first occurrence of each word, in order. */
  function FirstOccurrences(ws: seq<string>): (d: seq<string>)
    ensures Distinct(d)
    ensures forall w :: w in d <==> w in ws
  {
    if ws == [] then []
    else
      var d := FirstOccurrences(ws[..|ws| - 1]);
      var w := ws[|ws| - 1];
      assert ws == ws[..|ws| - 1] + [w];
      if w in d then d else d + [w]
  }

  /** The words of `ws` whose bucket is `i`, in order. */
  function InBucket(ws: seq<string>, i: int, n: Int32): (c: seq<string>)
    requires 0 < n
    ensures forall w :: w in c <==> w in ws && Bucket(w, n) == i
  {
    if ws == [] then []
    else
      var w := ws[|ws| - 1];
      assert ws == ws[..|ws| - 1] + [w];
      InBucket(ws[..|ws| - 1], i, n) + (if Bucket(w, n) == i then [w] else [])
  }

  lemma FedSnoc(tokens: seq<string>, t: string)
    ensures var w := Tokens.Normalise(t);
      Fed(tokens + [t]) == Fed(tokens) + (if w == [] then [] else [w])
  {
  }

  lemma FirstOccurrencesSnoc(ws: seq<string>, w: string)
    ensures var d := FirstOccurrences(ws);
      FirstOccurrences(ws + [w]) == if w in d then d else d + [w]
  {
  }

  lemma InBucketSnoc(ws: seq<string>, w: string, i: int, n: Int32)
    requires 0 < n
    ensures InBucket(ws + [w], i, n) == InBucket(ws, i, n) + (if Bucket(w, n) == i then [w] else [])
  {
  }

  /** Inserting into chains that list the words of `d` by bucket gives the
      chains of `d` extended by the word's first occurrence. */
  lemma InsertChain(s: Slots, d: seq<string>, w: string, n: Int32, i: int)
    requires 0 < n && |s| == n && 0 <= i < n
    requires s[i] == InBucket(d, i, n)
    requires s[Bucket(w, n)] == InBucket(d, Bucket(w, n), n)
    ensures Insert(s, w, n)[i] == InBucket(if w in d then d else d + [w], i, n)
  {
  }

  /** First-insertion order: starting from the empty table, chain `i` lists
      the distinct fed words with bucket `i` in the order of their first
      occurrence in the input. */
  lemma {:induction false} ProcessChains(tokens: seq<string>, n: Int32, i: int)
    requires 0 < n && 0 <= i < n
    ensures Process(Empty(n), tokens, n)[i] == InBucket(FirstOccurrences(Fed(tokens)), i, n)
  {
    if tokens != [] {
      var p, t := tokens[..|tokens| - 1], tokens[|tokens| - 1];
      assert tokens == p + [t];
      var w := Tokens.Normalise(t);
      var s := Process(Empty(n), p, n);
      ProcessChains(p, n, i);
      FedSnoc(p, t);
      if w == [] {
        assert Process(Empty(n), tokens, n) == s;
        assert Fed(tokens) == Fed(p);
      } else {
        ProcessChains(p, n, Bucket(w, n));
        FirstOccurrencesSnoc(Fed(p), w);
        InsertChain(s, FirstOccurrences(Fed(p)), w, n, i);
        assert Process(Empty(n), tokens, n) == Insert(s, w, n);
        assert Fed(tokens) == Fed(p) + [w];
      }
    }
  }
}
