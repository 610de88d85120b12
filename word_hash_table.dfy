/** The class WordHashTable of package hashWordAnalyzer: a fixed number of
    slots, each an ordered chain of distinct words, filled from a token
    sequence and summarised by a report. */
module HashWordAnalyzer {
  import opened JavaInt
  import opened StringHash
  import opened Chains
  import opened Statistics
  import Tokens

  class WordHashTable {
    /** The number of slots, fixed by the constructor. */
    const tableSize: Int32
    /** `hashTable[i]` is the chain of slot `i`. */
    const hashTable: array<seq<string>>

    /** The object invariant: one chain per slot, every word in the chain of
        its bucket, no chain holding a word twice. */
    ghost predicate Valid()
      reads this, hashTable
    {
      hashTable.Length == tableSize as int && Chains.Valid(hashTable[..], tableSize)
    }

    /** The words stored in the table. */
    ghost function Contents(): set<string>
      reads this, hashTable
    {
      Words(hashTable[..])
    }

    /** `new WordHashTable(size)`: `size` empty chains. */
    constructor (size: Int32)
      requires 0 < size
      ensures Valid() && fresh(hashTable)
      ensures tableSize == size
      ensures hashTable[..] == Empty(size as int)
      ensures Contents() == {}
    {
      tableSize := size;
      var slots := new seq<string>[size];
      var i := 0;
      while i < size
        invariant 0 <= i <= size
        invariant forall j :: 0 <= j < i ==> slots[j] == []
      {
        slots[i] := [];
        i := i + 1;
      }
      hashTable := slots;
      new;
      assert hashTable[..] == Empty(size as int);
      EmptyIsValid(size);
    }

    /** `addToHashTable(word)`: append `word` to the chain of slot
        `Math.abs(word.hashCode() % tableSize)` unless that chain contains it. */
    method AddToHashTable(word: string)
      requires Valid()
      modifies hashTable
      ensures Valid()
      ensures hashTable[..] == Insert(old(hashTable[..]), word, tableSize)
      ensures Contents() == old(Contents()) + {word}
    {
      var hash := MathAbs(Rem(HashCode(word), tableSize));
      assert hash == Bucket(word, tableSize);
      if word !in hashTable[hash] {
        hashTable[hash] := hashTable[hash] + [word];
      }
      assert hashTable[..] == Insert(old(hashTable[..]), word, tableSize);
      InsertKeepsValid(old(hashTable[..]), word, tableSize);
    }

    /** The token loop of `processFile`, over the whitespace-separated tokens
        of the file: each token is lower-cased and stripped of non-letters,
        and inserted unless that leaves it empty. */
    method ProcessTokens(tokens: seq<string>)
      requires Valid()
      modifies hashTable
      ensures Valid()
      ensures hashTable[..] == Process(old(hashTable[..]), tokens, tableSize)
      ensures Contents() == old(Contents()) + Tokens.NormalisedWords(tokens)
    {
      var i := 0;
      while i < |tokens|
        invariant 0 <= i <= |tokens|
        invariant Valid()
        invariant hashTable[..] == Process(old(hashTable[..]), tokens[..i], tableSize)
      {
        var word := Tokens.RemoveNonLetters(Tokens.ToLowerCase(tokens[i]));
        if word != [] {
          AddToHashTable(word);
        }
        assert tokens[..i + 1][..i] == tokens[..i];
        i := i + 1;
      }
      assert tokens[..|tokens|] == tokens;
      ProcessContents(old(hashTable[..]), tokens, tableSize);
    }

    /** `displayStatistics()`: the count of every slot with their running
        total, then every slot's words in chain order; the printed lines are
        returned instead of printed. Reading the table changes nothing. */
    method DisplayStatistics() returns (report: Report, lines: seq<string>)
      requires Valid()
      ensures report == ReportOf(hashTable[..])
      ensures report.total == |Contents()|
      ensures lines == Render(report)
    {
      var totalWords: nat := 0;
      var counts: seq<nat> := [];
      lines := [];
      var i := 0;
      while i < tableSize
        invariant 0 <= i <= tableSize
        invariant counts == Counts(hashTable[..i])
        invariant totalWords == Sum(counts)
        invariant lines == CountLines(counts)
      {
        var size := |hashTable[i]|;
        lines := lines + ["Slot " + Decimal(i) + ": " + Decimal(size) + " words"];
        assert hashTable[..i + 1][..i] == hashTable[..i];
        assert (counts + [size])[..i] == counts;
        counts := counts + [size];
        totalWords := totalWords + size;
        i := i + 1;
      }
      assert hashTable[..tableSize] == hashTable[..];
      lines := lines + ["", "Total words: " + Decimal(totalWords)];
      ghost var header := lines;
      i := 0;
      while i < tableSize
        invariant 0 <= i <= tableSize
        invariant lines == header + ListingLines(hashTable[..i])
      {
        var words := SpacedWords(hashTable[i]);
        lines := lines + ["Slot " + Decimal(i) + ": " + words];
        assert hashTable[..i + 1][..i] == hashTable[..i];
        i := i + 1;
      }
      report := Report(counts, totalWords, hashTable[..]);
      TotalIsWordCount(hashTable[..], tableSize);
    }
  }

  /** The inner loop of `displayStatistics`: each word of a chain followed by
      one space. */
  method SpacedWords(chain: seq<string>) returns (line: string)
    ensures line == Spaced(chain)
  {
    line := "";
    var j := 0;
    while j < |chain|
      invariant 0 <= j <= |chain|
      invariant line == Spaced(chain[..j])
    {
      assert chain[..j + 1][..j] == chain[..j];
      line := line + chain[j] + " ";
      j := j + 1;
    }
    assert chain[..j] == chain;
  }

  /** The run that `main` performs, with the file's tokens as a parameter:
      build a table, feed it the tokens, produce the report. The table then
      holds exactly the non-empty normalised tokens, and the total is their
      number. */
  method Analyze(size: Int32, tokens: seq<string>) returns (report: Report, lines: seq<string>)
    requires 0 < size
    ensures report == ReportOf(Process(Empty(size as int), tokens, size))
    ensures report.total == |Tokens.NormalisedWords(tokens)|
    ensures forall i :: 0 <= i < size ==>
      report.listing[i] == InBucket(FirstOccurrences(Fed(tokens)), i, size)
    ensures lines == Render(report)
  {
    var table := new WordHashTable(size);
    table.ProcessTokens(tokens);
    report, lines := table.DisplayStatistics();
    forall i | 0 <= i < size
      ensures report.listing[i] == InBucket(FirstOccurrences(Fed(tokens)), i, size)
    {
      ProcessChains(tokens, size, i);
    }
  }
}
