/** Worked values of the bucket computation, for the table size 1091 that
    `main` uses: a common word, and a word whose `hashCode()` is
    `Integer.MIN_VALUE`, the value on which `Math.abs` would overflow. */
module HashExamples {
  import opened JavaInt
  import opened StringHash

  /** One Horner step of `hashCode()` on a known prefix. */
  lemma HashStep(s: string, c: char, h: int, r: int)
    requires HashCode(s) == h && r == Wrap(31 * h + c as int)
    ensures HashCode(s + [c]) == r
  {
  }

  /** `"the".hashCode()` is 114801, which lands in slot 246 of 1091. */
  lemma TheBucket()
    ensures HashCode("the") == 114801
    ensures Bucket("the", 1091) == 246
  {
    assert HashCode("t") == 116;
    HashStep("t", 'h', 116, 3700);
    assert "t" + ['h'] == "th";
    HashStep("th", 'e', 3700, 114801);
    assert "th" + ['e'] == "the";
  }

  lemma MinValuePart0()
    ensures HashCode("polyge") == -982654550
  {
    assert HashCode("p") == 112;
    HashStep("p", 'o', 112, 3583);
    assert "p" + ['o'] == "po";
    HashStep("po", 'l', 3583, 111181);
    assert "po" + ['l'] == "pol";
    HashStep("pol", 'y', 111181, 3446732);
    assert "pol" + ['y'] == "poly";
    HashStep("poly", 'g', 3446732, 106848795);
    assert "poly" + ['g'] == "polyg";
    HashStep("polyg", 'e', 106848795, -982654550);
    assert "polyg" + ['e'] == "polyge";
  }
  lemma MinValuePart1()
    requires HashCode("polyge") == -982654550
    ensures HashCode("polygenelubr") == 2082189306
  {
    HashStep("polyge", 'n', -982654550, -397519868);
    assert "polyge" + ['n'] == "polygen";
    HashStep("polygen", 'e', -397519868, 561786081);
    assert "polygen" + ['e'] == "polygene";
    HashStep("polygene", 'l', 561786081, 235499435);
    assert "polygene" + ['l'] == "polygenel";
    HashStep("polygenel", 'u', 235499435, -1289451990);
    assert "polygenel" + ['u'] == "polygenelu";
    HashStep("polygenelu", 'b', -1289451990, -1318305928);
    assert "polygenelu" + ['b'] == "polygenelub";
    HashStep("polygenelub", 'r', -1318305928, 2082189306);
    assert "polygenelub" + ['r'] == "polygenelubr";
  }
  lemma MinValuePart2()
    requires HashCode("polygenelubr") == 2082189306
    ensures HashCode("polygenelubricants") == INT32_MIN
  {
    HashStep("polygenelubr", 'i', 2082189306, 123359151);
    assert "polygenelubr" + ['i'] == "polygenelubri";
    HashStep("polygenelubri", 'c', 123359151, -470833516);
    assert "polygenelubri" + ['c'] == "polygenelubric";
    HashStep("polygenelubric", 'a', -470833516, -1710937011);
    assert "polygenelubric" + ['a'] == "polygenelubrica";
    HashStep("polygenelubrica", 'n', -1710937011, -1499439679);
    assert "polygenelubrica" + ['n'] == "polygenelubrican";
    HashStep("polygenelubrican", 't', -1499439679, 762010323);
    assert "polygenelubrican" + ['t'] == "polygenelubricant";
    HashStep("polygenelubricant", 's', 762010323, INT32_MIN);
    assert "polygenelubricant" + ['s'] == "polygenelubricants";
  }

  /** `"polygenelubricants".hashCode()` is `Integer.MIN_VALUE`; because the
      remainder is taken before `Math.abs`, its slot is still valid:
      `2^31 mod 1091 = 706`. */
  lemma MinValueBucket()
    ensures HashCode("polygenelubricants") == INT32_MIN
    ensures MathAbs(HashCode("polygenelubricants")) < 0
    ensures Bucket("polygenelubricants", 1091) == 706
  {
    MinValuePart0();
    MinValuePart1();
    MinValuePart2();
  }
}
