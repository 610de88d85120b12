/** What WordHashTable.displayStatistics reports: the number of words in
    each slot, their running total, and each slot's words in chain order;
    and the text lines it prints for them. */
module Statistics {
  import opened JavaInt
  import opened StringHash
  import opened Chains

  datatype Report = Report(counts: seq<nat>, total: nat, listing: seq<seq<string>>)

  function Sum(xs: seq<nat>): nat
  {
    if xs == [] then 0 else Sum(xs[..|xs| - 1]) + xs[|xs| - 1]
  }

  /** The size of every chain, slot by slot. */
  function Counts(s: Slots): (c: seq<nat>)
    ensures |c| == |s|
    ensures forall i :: 0 <= i < |s| ==> c[i] == |s[i]|
  {
    if s == [] then [] else Counts(s[..|s| - 1]) + [|s[|s| - 1]|]
  }

  /** The report for a table: slot sizes, their sum, and the chains. */
  function ReportOf(s: Slots): (r: Report)
    ensures |r.counts| == |s| && r.listing == s
  {
    var c := Counts(s);
    Report(c, Sum(c), s)
  }

  /** A chain without repetitions holds as many distinct words as entries. */
  lemma {:induction false} DistinctChainSize(c: seq<string>)
    requires Distinct(c)
    ensures |ChainWords(c)| == |c|
  {
    if c != [] {
      var p := c[..|c| - 1];
      assert Distinct(p);
      DistinctChainSize(p);
      assert ChainWords(c) == ChainWords(p) + {c[|c| - 1]};
    }
  }

  /** No word lies in two different chains. */
  predicate Disjoint(s: Slots)
  {
    forall i, j, w :: 0 <= i < j < |s| && w in s[i] ==> w !in s[j]
  }

  lemma {:induction false} DisjointSize(s: Slots)
    requires Disjoint(s)
    requires forall i :: 0 <= i < |s| ==> Distinct(s[i])
    ensures |Words(s)| == Sum(Counts(s))
  {
    if s != [] {
      var p, c := s[..|s| - 1], s[|s| - 1];
      DisjointSize(p);
      DistinctChainSize(c);
      forall w | w in Words(p) ensures w !in ChainWords(c) {
        WordsMember(p, w);
      }
      assert Counts(s)[..|s| - 1] == Counts(p);
    }
  }

  /** The reported total is the number of distinct words in the table. */
  lemma TotalIsWordCount(s: Slots, n: Int32)
    requires Valid(s, n)
    ensures ReportOf(s).total == |Words(s)|
  {
    forall i, j, w | 0 <= i < j < |s| && w in s[i] ensures w !in s[j] {
      var k :| 0 <= k < |s[i]| && s[i][k] == w;
      assert Bucket(s[i][k], n) == i;
    }
    DisjointSize(s);
  }

  // ---------------------------------------------------------------------
  // Rendering

  function DigitChar(d: int): (c: char)
    requires 0 <= d < 10
    ensures '0' <= c <= '9' && c as int - '0' as int == d
  {
    ('0' as int + d) as char
  }

  predicate IsDigits(r: string)
  {
    forall i :: 0 <= i < |r| ==> '0' <= r[i] <= '9'
  }

  /** Decimal notation of a non-negative `int`, as string concatenation
      writes it: at least one digit, no leading zero. */
  function Decimal(x: nat): (r: string)
    ensures |r| >= 1 && IsDigits(r)
    ensures |r| > 1 ==> r[0] != '0'
  {
    if x < 10 then [DigitChar(x)] else Decimal(x / 10) + [DigitChar(x % 10)]
  }

  /** The value a string of digits denotes. */
  function DecimalValue(r: string): nat
    requires IsDigits(r)
  {
    if r == [] then 0 else 10 * DecimalValue(r[..|r| - 1]) + (r[|r| - 1] as int - '0' as int)
  }

  lemma {:induction false} DecimalRoundTrip(x: nat)
    ensures DecimalValue(Decimal(x)) == x
  {
    if x >= 10 {
      var r := Decimal(x);
      assert r[..|r| - 1] == Decimal(x / 10);
      DecimalRoundTrip(x / 10);
    }
  }

  /** The words of a chain as the listing prints them: each followed by one
      space. */
  function Spaced(chain: seq<string>): string
  {
    if chain == [] then [] else Spaced(chain[..|chain| - 1]) + chain[|chain| - 1] + " "
  }

  function CountLine(i: nat, count: nat): string
  {
    "Slot " + Decimal(i) + ": " + Decimal(count) + " words"
  }

  function TotalLine(total: nat): string
  {
    "Total words: " + Decimal(total)
  }

  function ListingLine(i: nat, chain: seq<string>): string
  {
    "Slot " + Decimal(i) + ": " + Spaced(chain)
  }

  /** The first section: one count line per slot, in slot order. */
  function CountLines(counts: seq<nat>): (lines: seq<string>)
    ensures |lines| == |counts|
    ensures forall i :: 0 <= i < |counts| ==> lines[i] == CountLine(i, counts[i])
  {
    if counts == [] then []
    else CountLines(counts[..|counts| - 1]) + [CountLine(|counts| - 1, counts[|counts| - 1])]
  }

  /** The last section: one listing line per slot, in slot order. */
  function ListingLines(listing: seq<seq<string>>): (lines: seq<string>)
    ensures |lines| == |listing|
    ensures forall i :: 0 <= i < |listing| ==> lines[i] == ListingLine(i, listing[i])
  {
    if listing == [] then []
    else ListingLines(listing[..|listing| - 1]) + [ListingLine(|listing| - 1, listing[|listing| - 1])]
  }

  /** The printed output, one string per line: a count line per slot, an
      empty line and the total, then a listing line per slot. */
  function Render(r: Report): (lines: seq<string>)
    ensures |lines| == |r.counts| + 2 + |r.listing|
    ensures lines[|r.counts|] == "" && lines[|r.counts| + 1] == TotalLine(r.total)
  {
    CountLines(r.counts) + ["", TotalLine(r.total)] + ListingLines(r.listing)
  }

  // ---------------------------------------------------------------------
  // Reading a listing back

  function LastSpace(s: string): (k: int)
    ensures -1 <= k < |s|
    ensures k >= 0 ==> s[k] == ' '
    ensures forall j :: k < j < |s| ==> s[j] != ' '
  {
    if s == [] then -1
    else if s[|s| - 1] == ' ' then |s| - 1
    else LastSpace(s[..|s| - 1])
  }

  /** Splits a string of space-terminated words into the words. */
  function Unspaced(s: string): seq<string>
    decreases |s|
  {
    if s == [] then []
    else
      var body := s[..|s| - 1];
      var k := LastSpace(body);
      Unspaced(body[..k + 1]) + [body[k + 1..]]
  }

  predicate PrintableWord(w: string)
  {
    w != [] && ' ' !in w
  }

  lemma LastSpaceAfter(a: string, w: string)
    requires a == [] || a[|a| - 1] == ' '
    requires ' ' !in w
    ensures LastSpace(a + w) == |a| - 1
    decreases |w|
  {
    if w != [] {
      var aw := a + w;
      assert aw[..|aw| - 1] == a + w[..|w| - 1];
      assert aw[|aw| - 1] == w[|w| - 1];
      LastSpaceAfter(a, w[..|w| - 1]);
    } else {
      assert a + w == a;
      if a != [] {
        assert a[..|a| - 1] + [' '] == a;
      }
    }
  }

  /** A listing line gives back its chain, provided the words are non-empty
      and hold no space. */
  lemma {:induction false} UnspacedSpaced(chain: seq<string>)
    requires forall i :: 0 <= i < |chain| ==> PrintableWord(chain[i])
    ensures Unspaced(Spaced(chain)) == chain
  {
    if chain != [] {
      var p, w := chain[..|chain| - 1], chain[|chain| - 1];
      var a := Spaced(p);
      var s := Spaced(chain);
      assert s == a + w + " ";
      assert s[..|s| - 1] == a + w;
      LastSpaceAfter(a, w);
      assert (a + w)[..|a|] == a;
      assert (a + w)[|a|..] == w;
      UnspacedSpaced(p);
    }
  }
}
