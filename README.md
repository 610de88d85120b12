# hashWordAnalyzer in Dafny

A model of `WordHashTable`, the one class of the hashWordAnalyzer program.
The table has a fixed number of slots (`tableSize`). Each slot holds a chain
of words, and a word goes into slot `Math.abs(word.hashCode() % tableSize)`.
`addToHashTable` appends a word to its chain only when the chain does not
already hold it, so the table stores a set of words, each word once. No count
of occurrences is kept, although the header comment of the Java file speaks of
"word frequency". `processFile` lower-cases each whitespace-separated token and
strips every character outside `[a-zA-Z]`, then inserts the result if it is
not empty. `displayStatistics` prints how many words each slot holds, the
total, and each slot's words in chain order.

Files, one module each:

- `java_int.dfy` (`JavaInt`): Java `int` wrap-around, Java's `%`, which
  truncates toward zero (section 15.17.3 of the Java Language Specification),
  and `Math.abs`.
- `string_hash.dfy` (`StringHash`): `String.hashCode` as the platform computes
  it, left to right with wrap-around. It is proved equal to the documented
  polynomial `s[0]*31^(n-1) + ... + s[n-1]` wrapped to 32 bits. The file also
  defines the bucket expression of line 58.
- `hash_examples.dfy` (`HashExamples`): worked bucket values for the table
  size 1091 that `main` uses.
- `tokens.dfy` (`Tokens`): `toLowerCase()` followed by
  `replaceAll("[^a-zA-Z]", "")`, on ASCII.
- `chains.dfy` (`Chains`): the table as a value, one `seq<string>` per slot.
  It defines the table invariant, insertion, and the token loop as functions,
  with lemmas about them.
- `statistics.dfy` (`Statistics`): the report (slot counts, total, listing)
  and the printed lines.
- `word_hash_table.dfy` (`HashWordAnalyzer`): the class `WordHashTable`. It
  has a `const tableSize` and an `array<seq<string>>` of chains that the
  methods update in place. Each method is proved against the functions of
  `Chains` and `Statistics`. The module also holds `Analyze`, the run that
  `main` performs.

Notes on behaviour, as the code has it:

- The remainder is taken before `Math.abs`. Its magnitude is below
  `tableSize`, so `Math.abs` never sees `Integer.MIN_VALUE`, and the slot is
  `|hashCode| mod tableSize`. That holds even when `hashCode()` is
  `Integer.MIN_VALUE`, as it is for `"polygenelubricants"`
  (`HashExamples.MinValueBucket`). No fallback is needed.
- The constructor does not check `size`. A negative size fails when the array
  is allocated, and a zero size makes line 58 divide by zero. The model
  states `0 < size` as a precondition.
- Inserting the empty string is allowed by `addToHashTable`. The token loop
  never does it.

## Model

| member | source | states |
|---|---|---|
| `JavaInt.Wrap` | src/hashWordAnalyzer/WordHashTable.java:58 | the wrapped `int` is congruent to the unbounded value modulo 2^32, and equals it when it is in range |
| `JavaInt.Rem` | src/hashWordAnalyzer/WordHashTable.java:58 | Java `%`: `Quot(a,b)*b + r == a` with the quotient truncated toward zero, `abs(r) < abs(b)`, `r` has the dividend's sign, and `abs(r) == abs(a) mod abs(b)` |
| `JavaInt.MathAbs` | src/hashWordAnalyzer/WordHashTable.java:58 | `Math.abs` is the magnitude except at `Integer.MIN_VALUE`, which it returns unchanged |
| `StringHash.HashCode` | src/hashWordAnalyzer/WordHashTable.java:58 | its own contract states only that the empty string hashes to 0 and a one-character string to its character code; `HashCodeIsPolynomial` characterises it for every string |
| `StringHash.HashCodeIsPolynomial` | src/hashWordAnalyzer/WordHashTable.java:58 | `hashCode()` computed left to right with wrap-around equals the documented polynomial wrapped to 32 bits |
| `StringHash.SlotIndex` | src/hashWordAnalyzer/WordHashTable.java:58 | for every `int` hash `h` and `n > 0`, `Math.abs(h % n)` lies in `[0, n)` and equals `abs(h) mod n` |
| `StringHash.Bucket` | src/hashWordAnalyzer/WordHashTable.java:58 | a word's slot is a valid index of a table of `n > 0` slots |
| `StringHash.BucketIsPolynomial` | src/hashWordAnalyzer/WordHashTable.java:58 | a word's slot is the magnitude of its wrapped hash polynomial modulo the table size |
| `HashExamples.TheBucket` | src/hashWordAnalyzer/WordHashTable.java:58 | `"the".hashCode()` is 114801 and its slot in a 1091-slot table is 246 |
| `HashExamples.MinValueBucket` | src/hashWordAnalyzer/WordHashTable.java:58 | `"polygenelubricants".hashCode()` is `Integer.MIN_VALUE`; `Math.abs` of it is negative, yet the word's slot in a 1091-slot table is 706 |
| `Tokens.ToLowerCase` | src/hashWordAnalyzer/WordHashTable.java:73 | lower-casing keeps the length and maps each character on its own: `A`-`Z` to `a`-`z`, the rest unchanged |
| `Tokens.RemoveNonLetters` | src/hashWordAnalyzer/WordHashTable.java:73 | deleting `[^a-zA-Z]` leaves only letters, keeps every letter of the input and adds none; a one-character string is kept if it is a letter and deleted otherwise |
| `Tokens.RemoveNonLettersAppend` | src/hashWordAnalyzer/WordHashTable.java:73 | deleting non-letters from a concatenation is deleting them from each part; with the one-character case of `RemoveNonLetters` this fixes the result as the input's letters in their order |
| `Tokens.Normalise` | src/hashWordAnalyzer/WordHashTable.java:73 | its own contract states only that the word is no longer than the token; `NormaliseIsLettersLowered` and `NormaliseIsLowerWord` characterise it |
| `Tokens.NormaliseIsLowerWord` | src/hashWordAnalyzer/WordHashTable.java:73 | a normalised token holds only `a`-`z` |
| `Tokens.NormaliseIsLettersLowered` | src/hashWordAnalyzer/WordHashTable.java:73 | normalising is the same as keeping the token's letters, in order, each lower-cased |
| `Tokens.NormaliseFixpoint` | src/hashWordAnalyzer/WordHashTable.java:73 | a token is unchanged by normalisation if and only if it consists of lower-case letters |
| `Tokens.NormaliseIdempotent` | src/hashWordAnalyzer/WordHashTable.java:73 | normalising twice gives the same as normalising once |
| `Tokens.NormalisedWords` | src/hashWordAnalyzer/WordHashTable.java:71-78 | the words a token sequence contributes are exactly its non-empty normalised tokens, each non-empty and lower-case |
| `Chains.Empty` | src/hashWordAnalyzer/WordHashTable.java:48-53 | the initial state has `tableSize` slots, every one an empty chain |
| `Chains.EmptyIsValid` | src/hashWordAnalyzer/WordHashTable.java:46-54 | the initial state satisfies the table invariant and holds no word |
| `Chains.NoDuplicates` | src/hashWordAnalyzer/WordHashTable.java:58-62 | under the invariant a word occurs at one position of one chain at most (set semantics over the whole table) |
| `Chains.WordInOwnSlot` | src/hashWordAnalyzer/WordHashTable.java:58-59 | under the invariant a word is in the table if and only if it is in the chain of its bucket, so scanning that chain alone is enough |
| `Chains.Insert` | src/hashWordAnalyzer/WordHashTable.java:56-63 | its own contract states only that the number of slots is unchanged; `InsertPlacement` and `InsertKeepsValid` characterise it |
| `Chains.InsertPlacement` | src/hashWordAnalyzer/WordHashTable.java:56-63 | after insertion the word is in its bucket's chain; a word absent from the whole table is appended at the end; a word present anywhere leaves the table unchanged; every other chain is unchanged |
| `Chains.InsertKeepsOrder` | src/hashWordAnalyzer/WordHashTable.java:59-62 | every chain before insertion is a prefix of the same chain after it: nothing is reordered or removed |
| `Chains.InsertKeepsValid` | src/hashWordAnalyzer/WordHashTable.java:58-62 | insertion preserves the invariant (every word in its bucket's slot, no repeats) and adds exactly the inserted word to the set of words |
| `Chains.InsertIdempotent` | src/hashWordAnalyzer/WordHashTable.java:59-62 | inserting a word a second time changes nothing |
| `Chains.Step` | src/hashWordAnalyzer/WordHashTable.java:72-77 | its own contract states only that the number of slots is unchanged; it is the loop body that `ProcessContents` and `ProcessChains` reason about |
| `Chains.Process` | src/hashWordAnalyzer/WordHashTable.java:71-78 | its own contract states only that the number of slots is unchanged; `ProcessContents` and `ProcessChains` characterise it |
| `Chains.ProcessContents` | src/hashWordAnalyzer/WordHashTable.java:71-78 | the token loop preserves the invariant, and the words afterwards are the words before plus the non-empty normalised tokens, nothing else |
| `Chains.ProcessPresent` | src/hashWordAnalyzer/WordHashTable.java:71-78 | tokens whose normalised words are all present leave the table unchanged |
| `Chains.ProcessIdempotent` | src/hashWordAnalyzer/WordHashTable.java:71-78 | processing the same tokens twice gives the same table as processing them once |
| `Chains.Fed` | src/hashWordAnalyzer/WordHashTable.java:73-76 | every word handed to insertion is non-empty and lower-case |
| `Chains.FirstOccurrences` | src/hashWordAnalyzer/WordHashTable.java:59-61 | the first occurrences of a word sequence contain no repeats and hold exactly the words of the sequence |
| `Chains.ProcessChains` | src/hashWordAnalyzer/WordHashTable.java:56-78 | from the empty table, chain `i` lists the distinct words of bucket `i` in the order of their first occurrence in the input |
| `Statistics.Counts` | src/hashWordAnalyzer/WordHashTable.java:92-96 | one count per slot, in slot order, each the size of that slot's chain |
| `Statistics.ReportOf` | src/hashWordAnalyzer/WordHashTable.java:88-109 | its own contract states only one count per slot and the chains listed as they are; `TotalIsWordCount` characterises the total |
| `Statistics.DisjointSize` | src/hashWordAnalyzer/WordHashTable.java:90-98 | for chains without repeats that share no word, the number of distinct words is the sum of the chain sizes |
| `Statistics.TotalIsWordCount` | src/hashWordAnalyzer/WordHashTable.java:90-98 | under the invariant the running total, the sum of the slot counts, is the number of distinct words in the table |
| `Statistics.Decimal` | src/hashWordAnalyzer/WordHashTable.java:94 | a number is printed as at least one digit, with no leading zero |
| `Statistics.DecimalRoundTrip` | src/hashWordAnalyzer/WordHashTable.java:94 | the printed digits denote the number printed |
| `Statistics.CountLines` | src/hashWordAnalyzer/WordHashTable.java:92-96 | the first section has one line per slot, line `i` being `Slot i: <count> words` |
| `Statistics.ListingLines` | src/hashWordAnalyzer/WordHashTable.java:100-108 | the last section has one line per slot, line `i` being `Slot i: ` followed by the slot's words |
| `Statistics.Render` | src/hashWordAnalyzer/WordHashTable.java:88-109 | its own contract states the number of lines and that the empty line and the total line follow the count section; `CountLines` and `ListingLines` give every other line |
| `Statistics.UnspacedSpaced` | src/hashWordAnalyzer/WordHashTable.java:102-107 | a listing of non-empty words without spaces splits back into the chain it was printed from |
| `HashWordAnalyzer.WordHashTable.constructor` | src/hashWordAnalyzer/WordHashTable.java:46-54 | the new table has `size` slots, all empty, a fresh array, and satisfies the invariant |
| `HashWordAnalyzer.WordHashTable.AddToHashTable` | src/hashWordAnalyzer/WordHashTable.java:56-63 | the array afterwards holds `Insert` of the old chains; the invariant holds; the word set grows by exactly the word |
| `HashWordAnalyzer.WordHashTable.ProcessTokens` | src/hashWordAnalyzer/WordHashTable.java:71-78 | the array afterwards holds `Process` of the old chains; the invariant holds; the word set grows by exactly the non-empty normalised tokens |
| `HashWordAnalyzer.WordHashTable.DisplayStatistics` | src/hashWordAnalyzer/WordHashTable.java:88-109 | without changing the table, returns the slot counts, their running total (the number of distinct words) and the chains, plus exactly the lines that would be printed |
| `HashWordAnalyzer.SpacedWords` | src/hashWordAnalyzer/WordHashTable.java:103-106 | the inner loop builds each word of the chain followed by one space |
| `HashWordAnalyzer.Analyze` | src/hashWordAnalyzer/WordHashTable.java:111-119 | constructing, feeding the tokens and reporting gives a total equal to the number of distinct non-empty normalised tokens, and each slot lists its words in first-occurrence order |

## Left out

- File input (`FileReader`, `BufferedReader`, `Scanner`) and the catch-all handler that prints the stack trace and carries on (lines 67-70 and 79-85) are I/O. The model takes the already split tokens as a `seq<string>`.
- Splitting on `Scanner`'s whitespace delimiter is part of that I/O and is not modelled.
- `main` (lines 111-119) opens a fixed file path and uses a fixed table size of 1091. `Analyze` takes the size and the tokens as parameters instead.
- Output to `System.out` is not performed. `DisplayStatistics` returns the printed lines, one string per line: the count lines, an empty line and the total line from `"\nTotal words: "`, then the listing lines.
- `toLowerCase` and the regex are modelled on ASCII only. Locale rules (such as the Turkish dotless i) and non-ASCII characters that lower-case to ASCII letters (such as the Kelvin sign) are left out. Every non-ASCII character is dropped, as the `[^a-zA-Z]` deletion drops it in the source.
- `hashCode()` works on UTF-16 code units, while a Dafny `char` is a Unicode scalar value. They agree for characters up to U+FFFF; a character above U+FFFF is one `char` here but two code units in Java, so it hashes differently. Only `AddToHashTable` called directly can receive one, since the token loop inserts words made of `a`-`z` only.
- `LinkedList.contains` is modelled as sequence membership (`in`), not as a scanning loop, because it is library code.
- The chains are sequence values held in the array slots, not `LinkedList` objects. They are private and never shared, so no aliasing is lost.
- `tableSize` and `hashTable` are non-final fields in the source. Nothing reassigns them after the constructor, so they are `const` here.
- `size()` and `totalWords` are Java `int`s and would wrap past 2^31-1 words. The counts are unbounded here, because no heap holds that many strings.
- Construction with `size <= 0` is excluded by a precondition. The source does not check it and fails at allocation or at the first division.
