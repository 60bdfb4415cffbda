/** Worked examples on concrete addresses, starting with the one in the doc
    comment of `address_handler`. The string facts live in a module of their
    own, beside `PyText` only, so that each stays a small proof. */
module TextExamples {
  import opened PyText

  lemma UpperJohnstown()
    ensures Upper("Johnstown") == "JOHNSTOWN"
  {
    assert "Johnstown" == "John" + "stown";
    UpperAppend("John", "stown");
    UpperJohn();
    UpperStown();
    assert "JOHN" + "STOWN" == "JOHNSTOWN";
  }

  lemma UpperJohn() ensures Upper("John") == "JOHN" { }
  lemma UpperStown() ensures Upper("stown") == "STOWN" { }

  lemma UpperBennekerry()
    ensures Upper("Bennekerry") == "BENNEKERRY"
  {
    assert "Bennekerry" == "Benne" + "kerry";
    UpperAppend("Benne", "kerry");
    UpperBenne();
    UpperKerry();
    assert "BENNE" + "KERRY" == "BENNEKERRY";
  }

  lemma UpperBenne() ensures Upper("Benne") == "BENNE" { }
  lemma UpperKerry() ensures Upper("kerry") == "KERRY" { }

  lemma UpperCoCarlow()
    ensures Upper("Co") == "CO"
    ensures Upper("Carlow") == "CARLOW"
  {
  }

  /** A string of ASCII letters has no whitespace. */
  lemma LettersHaveNoSpace(w: string)
    requires forall i :: 0 <= i < |w| ==> IsAsciiLetter(w[i])
    ensures NoPySpace(w)
  {
  }

  /** Two words separated by one space split into those two words. */
  lemma SplitWsTwoWords(s: string, a: string, b: string)
    requires s == a + [' '] + b
    requires a != [] && NoPySpace(a) && b != [] && NoPySpace(b)
    ensures SplitWs(s) == [a, b]
  {
    SplitWsField(a, ' ', b);
    SplitWsWord(b);
    PieceThenOne(SplitWs(s), SplitWs(b), a, b);
  }

  /** A first piece (or word) split off in front of a one-piece rest. */
  lemma PieceThenOne(parts: seq<string>, rest: seq<string>, a: string, b: string)
    requires parts == [a] + rest && rest == [b]
    ensures parts == [a, b]
  {
  }

  /** `"Co Carlow".split()` */
  lemma SplitWsCoCarlow()
    ensures SplitWs("Co Carlow") == ["Co", "Carlow"]
  {
    assert "Co Carlow" == "Co" + [' '] + "Carlow";
    LettersHaveNoSpace("Co");
    LettersHaveNoSpace("Carlow");
    SplitWsTwoWords("Co Carlow", "Co", "Carlow");
  }

  /** `"Johnstown, Bennekerry, Co Carlow".split(',')` */
  lemma DocCommentSplit()
    ensures SplitOn("Johnstown, Bennekerry, Co Carlow", ',') == ["Johnstown", " Bennekerry", " Co Carlow"]
  {
    assert "Johnstown, Bennekerry, Co Carlow" == "Johnstown" + [','] + " Bennekerry" + [','] + " Co Carlow";
    SplitOnThree("Johnstown", " Bennekerry", " Co Carlow", ',');
  }

  /** `"Foo,,Bar".split(',')` */
  lemma DoubleCommaSplit()
    ensures SplitOn("Foo,,Bar", ',') == ["Foo", "", "Bar"]
  {
    assert "Foo,,Bar" == "Foo" + [','] + "" + [','] + "Bar";
    SplitOnThree("Foo", "", "Bar", ',');
  }

  /** `"Foo,,,Bar".split(',')` */
  lemma TripleCommaSplit()
    ensures SplitOn("Foo,,,Bar", ',') == ["Foo", "", "", "Bar"]
  {
    assert "Foo,,,Bar" == "Foo" + [','] + (",," + "Bar");
    assert ',' !in "Foo" && ',' !in "Bar";
    SplitOnField("Foo", ",," + "Bar", ',');
    TwoLeadingCommas("Bar");
    FieldThenPieces(SplitOn("Foo,,,Bar", ','), "Foo", SplitOn(",," + "Bar", ','), "", "", "Bar");
  }

  /** A field split off in front of the three pieces of the rest. */
  lemma FieldThenPieces(parts: seq<string>, a: string, rest: seq<string>, b: string, c: string, d: string)
    requires parts == [a] + rest && rest == [b, c, d]
    ensures parts == [a, b, c, d]
  {
  }

  lemma CarlowFacts()
    ensures Upper("Carlow") == "CARLOW"
    ensures ' ' !in "Carlow" && '.' !in "Carlow" && "Carlow"[0] != ' '
  {
    UpperCoCarlow();
  }

  lemma TrailingCommaSplit()
    ensures SplitOn("Foo,", ',') == ["Foo", ""]
  {
    assert "Foo," == "Foo" + [','] + "";
    SplitOnField("Foo", "", ',');
    assert SplitOn("", ',') == [[]];
  }

  /** `" Foo., Bar".split(',')` */
  lemma LeadingSpaceDotSplit()
    ensures SplitOn(" Foo., Bar", ',') == [" Foo.", " Bar"]
  {
    assert " Foo., Bar" == " Foo." + [','] + " Bar";
    assert ',' !in " Foo." && ',' !in " Bar";
    SplitOnField(" Foo.", " Bar", ',');
    SplitOnNoSep(" Bar", ',');
    PieceThenOne(SplitOn(" Foo., Bar", ','), SplitOn(" Bar", ','), " Foo.", " Bar");
  }

  /** The two segments of `" Foo., Bar"`, taken apart. */
  lemma FooDotFacts()
    ensures " Foo." == [' '] + ("Foo" + ['.']) && '.' !in "Foo"
    ensures " Bar" == [' '] + "Bar"
  {
  }

  /** Two leading commas before a comma-free field give two empty pieces. */
  lemma TwoLeadingCommas(b: string)
    requires ',' !in b
    ensures SplitOn(",," + b, ',') == ["", "", b]
  {
    assert ",," + b == "" + [','] + "" + [','] + b;
    SplitOnThree("", "", b, ',');
  }

  lemma UpperFooBar()
    ensures Upper("Foo") == "FOO" && Upper("Bar") == "BAR"
    ensures ' ' !in "Foo" && ' ' !in "Bar" && '.' !in "Foo" && '.' !in "Bar"
  {
  }

  lemma DocCommentSegments()
    ensures " Bennekerry" == [' '] + "Bennekerry" && '.' !in "Bennekerry"
    ensures " Co Carlow" == [' '] + "Co Carlow" && '.' !in "Co Carlow"
    ensures "Johnstown"[0] != ' ' && '.' !in "Johnstown"
    ensures ' ' !in "Johnstown" && ' ' !in "Bennekerry" && ' ' in "Co Carlow"
  {
    assert "Co Carlow"[2] == ' ';
  }
}

module TokenizerExamples {
  import opened PyText
  import opened AddressTokenizer
  import opened TextExamples

  /** A segment with one leading space and no '.' loses just the space. */
  lemma CleanLeadingSpace(v: string)
    requires '.' !in v
    ensures CleanSegment([' '] + v) == v
  {
    assert ([' '] + v)[1..] == v;
  }

  /** Filtering a list without empty segments changes nothing. */
  lemma {:induction false} NonEmptyUnchanged(segs: seq<string>)
    requires !HasEmpty(segs)
    ensures NonEmptySegments(segs) == segs
    decreases |segs|
  {
    if segs != [] {
      assert |segs[0]| != 0;
      assert !HasEmpty(segs[1..]) by {
        forall j | 0 <= j < |segs| - 1 ensures |segs[1..][j]| != 0 {
          assert segs[1..][j] == segs[j + 1];
        }
      }
      NonEmptyUnchanged(segs[1..]);
    }
  }

  lemma CleanThree(a: string, b: string, c: string)
    requires |a| > 0 && |b| > 0 && |c| > 0
    ensures NonEmptySegments([a, b, c]) == [a, b, c]
    ensures CleanAll([a, b, c]) == [CleanSegment(a), CleanSegment(b), CleanSegment(c)]
  {
    NonEmptyUnchanged([a, b, c]);
  }

  lemma CleanPair(a: string, b: string)
    requires |a| > 0 && |b| > 0
    ensures NonEmptySegments([a, b]) == [a, b]
    ensures CleanAll([a, b]) == [CleanSegment(a), CleanSegment(b)]
  {
    NonEmptyUnchanged([a, b]);
  }

  lemma CleanTwo(a: string, b: string)
    requires |a| > 0 && a[0] != ' ' && '.' !in a
    requires |b| > 0 && b[0] != ' ' && '.' !in b
    ensures CleanAll([a, b]) == [a, b]
  {
  }

  lemma TokensOfThree(a: string, b: string, c: string)
    ensures TokensOf([a, b, c]) == SegmentTokens(a) + SegmentTokens(b) + SegmentTokens(c)
  {
    TokensOfOne(c);
    TokensOfCons(b, [c]);
    TokensOfCons(a, [b, c]);
    TokensRegroup(SegmentTokens(a), SegmentTokens(b), SegmentTokens(c));
  }

  lemma TokensOfOne(w: string)
    ensures TokensOf([w]) == SegmentTokens(w)
  {
    assert [w][1..] == [];
  }

  lemma TokensOfCons(w: string, rest: seq<string>)
    ensures TokensOf([w] + rest) == SegmentTokens(w) + TokensOf(rest)
  {
    assert ([w] + rest)[0] == w && ([w] + rest)[1..] == rest;
  }

  /** The token lists of three segments regroup freely. */
  lemma TokensRegroup(x: seq<string>, y: seq<string>, z: seq<string>)
    ensures x + (y + z) == x + y + z
  {
  }

  lemma DocCommentClean()
    ensures NonEmptySegments(["Johnstown", " Bennekerry", " Co Carlow"]) == ["Johnstown", " Bennekerry", " Co Carlow"]
    ensures CleanAll(["Johnstown", " Bennekerry", " Co Carlow"]) == ["Johnstown", "Bennekerry", "Co Carlow"]
  {
    DocCommentSegments();
    CleanLeadingSpace("Bennekerry");
    CleanLeadingSpace("Co Carlow");
    CleanThree("Johnstown", " Bennekerry", " Co Carlow");
  }

  /** A segment without a space is its upper-cased self. */
  lemma SegmentOneWord(w: string, u: string)
    requires ' ' !in w && Upper(w) == u
    ensures SegmentTokens(w) == [u]
  {
  }

  /** A segment of two words gives both, upper-cased. */
  lemma SegmentTwoWords(w: string, a: string, b: string, ua: string, ub: string)
    requires ' ' in w && SplitWs(w) == [a, b]
    requires Upper(a) == ua && Upper(b) == ub
    ensures SegmentTokens(w) == [ua, ub]
  {
    UpperAllTwo(SplitWs(w), a, b, ua, ub);
  }

  lemma UpperAllTwo(words: seq<string>, a: string, b: string, ua: string, ub: string)
    requires words == [a, b] && Upper(a) == ua && Upper(b) == ub
    ensures UpperAll(words) == [ua, ub]
  {
    assert words[1..] == [b];
    assert words[1..][1..] == [];
  }

  /** Three segments giving one, one and two tokens give four tokens. */
  lemma OneOneTwoTokens(tokens: seq<string>, p: seq<string>, q: seq<string>, r: seq<string>,
                        a: string, b: string, c: string, d: string)
    requires tokens == p + q + r && p == [a] && q == [b] && r == [c, d]
    ensures tokens == [a, b, c, d]
  {
  }

  lemma DocCommentTokens()
    ensures TokensOf(["Johnstown", "Bennekerry", "Co Carlow"]) == ["JOHNSTOWN", "BENNEKERRY", "CO", "CARLOW"]
  {
    DocCommentSegments();
    UpperJohnstown();
    UpperBennekerry();
    UpperCoCarlow();
    SplitWsCoCarlow();
    SegmentOneWord("Johnstown", "JOHNSTOWN");
    SegmentOneWord("Bennekerry", "BENNEKERRY");
    SegmentTwoWords("Co Carlow", "Co", "Carlow", "CO", "CARLOW");
    TokensOfThree("Johnstown", "Bennekerry", "Co Carlow");
    OneOneTwoTokens(TokensOf(["Johnstown", "Bennekerry", "Co Carlow"]),
      SegmentTokens("Johnstown"), SegmentTokens("Bennekerry"), SegmentTokens("Co Carlow"),
      "JOHNSTOWN", "BENNEKERRY", "CO", "CARLOW");
  }

  /** A lone empty segment between two others is dropped. */
  lemma DropMiddleEmpty(a: string, b: string)
    requires |a| > 0 && |b| > 0
    ensures NonEmptySegments([a, [], b]) == [a, b]
  {
    assert [a, [], b] == [a] + [[], b];
    NonEmptySegmentsAppend([a], [[], b]);
    assert [[], b][1..] == [b];
  }

  lemma TwoWordsTokens(a: string, b: string, ua: string, ub: string)
    requires ' ' !in a && ' ' !in b && Upper(a) == ua && Upper(b) == ub
    ensures TokensOf([a, b]) == [ua, ub]
  {
    TokensOfAppend([a], [b]);
    assert [a, b] == [a] + [b];
    assert TokensOf([b]) == SegmentTokens(b) + [];
  }

  /** `"Foo,,Bar"`: the single empty segment is removed and the address
      gives two tokens. */
  lemma DoubleCommaExample()
    ensures !HasAdjacentEmpty(SplitOn("Foo,,Bar", ','))
    ensures Tokenize("Foo,,Bar") == ["FOO", "BAR"]
  {
    DoubleCommaSplit();
    UpperFooBar();
    DropMiddleEmpty("Foo", "Bar");
    CleanTwo("Foo", "Bar");
    TwoWordsTokens("Foo", "Bar", "FOO", "BAR");
  }

  /** `"Foo,,,Bar"`: two adjacent empty segments, so one survives the removal
      loop and `address_handler` raises `IndexError`. */
  lemma TripleCommaExample()
    ensures HasAdjacentEmpty(SplitOn("Foo,,,Bar", ','))
  {
    TripleCommaSplit();
    var segs := SplitOn("Foo,,,Bar", ',');
    assert |segs[1]| == 0 && |segs[2]| == 0;
  }

  /** The empty address leaves no token at all. */
  lemma EmptyAddressExample()
    ensures !HasAdjacentEmpty(SplitOn("", ','))
    ensures Tokenize("") == []
  {
    assert SplitOn("", ',') == [[]];
    assert NonEmptySegments([[]]) == [];
  }

  /** `" Foo., Bar"`: each segment loses its leading space, the dot goes,
      and the two words are upper-cased in order. */
  lemma LeadingSpaceDotExample()
    ensures !HasAdjacentEmpty(SplitOn(" Foo., Bar", ','))
    ensures Tokenize(" Foo., Bar") == ["FOO", "BAR"]
  {
    LeadingSpaceDotSplit();
    LeadingSpaceDotClean();
    UpperFooBar();
    TwoWordsTokens("Foo", "Bar", "FOO", "BAR");
    Pipeline(" Foo., Bar", [" Foo.", " Bar"], ["Foo", "Bar"], ["FOO", "BAR"]);
  }

  lemma LeadingSpaceDotClean()
    ensures NonEmptySegments([" Foo.", " Bar"]) == [" Foo.", " Bar"]
    ensures CleanAll([" Foo.", " Bar"]) == ["Foo", "Bar"]
  {
    FooDotFacts();
    UpperFooBar();
    CleanPair(" Foo.", " Bar");
    CleanLeadingSpace("Bar");
    CleanSpaceWordDot("Foo");
  }

  lemma CleanSpaceWordDot(v: string)
    requires '.' !in v
    ensures CleanSegment([' '] + (v + ['.'])) == v
  {
    assert ([' '] + (v + ['.']))[1..] == v + ['.'];
    RemoveCharLast(v, '.');
  }

  /** `"Foo,"`: the empty segment a trailing comma makes is dropped. */
  lemma TrailingCommaExample()
    ensures !HasAdjacentEmpty(SplitOn("Foo,", ','))
    ensures Tokenize("Foo,") == ["FOO"]
  {
    TrailingCommaSplit();
    TrailingCommaTokens();
    TokensOfPipeline("Foo,", ["Foo", ""], ["Foo"], ["FOO"]);
  }

  lemma TrailingCommaTokens()
    ensures !HasAdjacentEmpty(["Foo", ""])
    ensures NonEmptySegments(["Foo", ""]) == ["Foo"]
    ensures CleanAll(["Foo"]) == ["Foo"]
    ensures TokensOf(["Foo"]) == ["FOO"]
  {
    UpperFooBar();
    assert NonEmptySegments(["Foo", ""]) == ["Foo"] + NonEmptySegments([""]);
    assert CleanSegment("Foo") == "Foo";
    assert TokensOf(["Foo"]) == SegmentTokens("Foo") + TokensOf([]);
  }

  /** The pipeline on an address whose comma split has no two adjacent
      empty segments, given its intermediate lists. */
  lemma TokensOfPipeline(address: string, segs: seq<string>, kept: seq<string>, tokens: seq<string>)
    requires SplitOn(address, ',') == segs && !HasAdjacentEmpty(segs)
    requires NonEmptySegments(segs) == kept && CleanAll(kept) == kept && TokensOf(kept) == tokens
    ensures !HasAdjacentEmpty(SplitOn(address, ','))
    ensures Tokenize(address) == tokens
  {
  }

  /** A county name on its own is one token. */
  lemma CountyOnlyExample()
    ensures !HasAdjacentEmpty(SplitOn("Carlow", ','))
    ensures Tokenize("Carlow") == ["CARLOW"]
  {
    SplitOnNoSep("Carlow", ',');
    CountyOnlyTokens();
    TokensOfPipeline("Carlow", ["Carlow"], ["Carlow"], ["CARLOW"]);
  }

  lemma CountyOnlyTokens()
    ensures !HasAdjacentEmpty(["Carlow"])
    ensures NonEmptySegments(["Carlow"]) == ["Carlow"]
    ensures CleanAll(["Carlow"]) == ["Carlow"]
    ensures TokensOf(["Carlow"]) == ["CARLOW"]
  {
    CarlowFacts();
    assert NonEmptySegments(["Carlow"]) == ["Carlow"] + NonEmptySegments([]);
    assert CleanSegment("Carlow") == "Carlow";
    SegmentOneWord("Carlow", "CARLOW");
    TokensOfOne("Carlow");
  }

  /** `" "`: a segment of one space is not removed; cleaning leaves it empty
      and it becomes the empty token. */
  lemma BlankSegmentExample()
    ensures !HasAdjacentEmpty(SplitOn(" ", ','))
    ensures Tokenize(" ") == [""]
  {
    SplitOnNoSep(" ", ',');
    assert NonEmptySegments([" "]) == [" "] + NonEmptySegments([]);
    assert CleanSegment(" ") == "";
    assert TokensOf([""]) == SegmentTokens("") + TokensOf([]);
  }

  /** The example of the doc comment of `address_handler`, with the
      upper-casing the code applies. */
  lemma DocCommentExample()
    ensures !HasAdjacentEmpty(SplitOn("Johnstown, Bennekerry, Co Carlow", ','))
    ensures Tokenize("Johnstown, Bennekerry, Co Carlow") == ["JOHNSTOWN", "BENNEKERRY", "CO", "CARLOW"]
  {
    DocCommentSplit();
    DocCommentClean();
    DocCommentTokens();
    Pipeline("Johnstown, Bennekerry, Co Carlow", ["Johnstown", " Bennekerry", " Co Carlow"],
      ["Johnstown", "Bennekerry", "Co Carlow"], ["JOHNSTOWN", "BENNEKERRY", "CO", "CARLOW"]);
  }

  /** The pipeline on an address whose comma split has no empty segment. */
  lemma Pipeline(address: string, segs: seq<string>, cleaned: seq<string>, tokens: seq<string>)
    requires SplitOn(address, ',') == segs && NonEmptySegments(segs) == segs
    requires CleanAll(segs) == cleaned && TokensOf(cleaned) == tokens
    ensures !HasAdjacentEmpty(SplitOn(address, ','))
    ensures Tokenize(address) == tokens
  {
  }
}
