/** `address_handler`: a raw address string becomes a flat list of upper-cased
    tokens. The four steps of the source are three loops here
    (`RemoveEmptySegments`, `CleanSegments`, `SplitSegments`) after the
    comma split, and `AddressHandler` runs them in order.
    `Tokenize` is the same pipeline written as a composition of pure
    filters and maps; it is what the loops are proved against. */
module AddressTokenizer {
  import opened Outcomes
  import opened PyText

  // ---------------------------------------------------------------------------
  // Step 2: dropping empty segments

  /** Some segment is empty. */
  predicate HasEmpty(segs: seq<string>) {
    exists j :: 0 <= j < |segs| && |segs[j]| == 0
  }

  /** Two consecutive empty segments somewhere in the list. */
  predicate HasAdjacentEmpty(segs: seq<string>) {
    exists j :: 0 <= j < |segs| - 1 && |segs[j]| == 0 && |segs[j + 1]| == 0
  }

  /** The segments of `segs` that are not empty, in order, with repetitions. */
  function NonEmptySegments(segs: seq<string>): (r: seq<string>)
    ensures !HasEmpty(r)
    ensures |r| <= |segs|
  {
    if segs == [] then []
    else if |segs[0]| == 0 then NonEmptySegments(segs[1..])
    else [segs[0]] + NonEmptySegments(segs[1..])
  }

  lemma {:induction false} NonEmptySegmentsAppend(a: seq<string>, b: seq<string>)
    ensures NonEmptySegments(a + b) == NonEmptySegments(a) + NonEmptySegments(b)
    decreases |a|
  {
    if a == [] {
      assert a + b == b;
    } else {
      assert (a + b)[0] == a[0];
      assert (a + b)[1..] == a[1..] + b;
      NonEmptySegmentsAppend(a[1..], b);
    }
  }

  /** A character absent from every segment is absent from every kept one. */
  lemma {:induction false} NonEmptySegmentsLack(segs: seq<string>, c: char)
    requires forall i :: 0 <= i < |segs| ==> c !in segs[i]
    ensures forall i :: 0 <= i < |NonEmptySegments(segs)| ==> c !in NonEmptySegments(segs)[i]
    decreases |segs|
  {
    if segs != [] {
      NonEmptySegmentsLack(segs[1..], c);
    }
  }

  /** Index of the first empty segment. */
  function FirstEmpty(list: seq<string>): (f: nat)
    requires HasEmpty(list)
    ensures f < |list| && |list[f]| == 0
    ensures forall j :: 0 <= j < f ==> |list[j]| != 0
  {
    if |list[0]| == 0 then 0
    else
      assert HasEmpty(list[1..]) by {
        var j :| 0 <= j < |list| && |list[j]| == 0;
        assert list[1..][j - 1] == list[j];
      }
      1 + FirstEmpty(list[1..])
  }

  /** `list.remove('')`: the first empty segment is deleted. */
  function RemoveFirstEmpty(list: seq<string>): (r: seq<string>)
    requires HasEmpty(list)
    ensures |r| == |list| - 1
    ensures forall j :: 0 <= j < FirstEmpty(list) ==> r[j] == list[j]
    ensures forall j :: FirstEmpty(list) <= j < |r| ==> r[j] == list[j + 1]
  {
    var f := FirstEmpty(list);
    list[..f] + list[f + 1..]
  }

  /** Removing an empty segment leaves the non-empty ones as they were. */
  lemma RemoveEmptyKeepsNonEmpty(list: seq<string>)
    requires HasEmpty(list)
    ensures NonEmptySegments(RemoveFirstEmpty(list)) == NonEmptySegments(list)
  {
    var f := FirstEmpty(list);
    assert list == (list[..f] + [list[f]]) + list[f + 1..];
    NonEmptySegmentsAppend(list[..f] + [list[f]], list[f + 1..]);
    NonEmptySegmentsAppend(list[..f], [list[f]]);
    NonEmptySegmentsAppend(list[..f], list[f + 1..]);
    assert NonEmptySegments([list[f]]) == [];
  }

  lemma NonEmptyPrefixStep(segs: seq<string>, k: nat)
    requires k < |segs|
    ensures NonEmptySegments(segs[..k + 1])
         == NonEmptySegments(segs[..k]) + (if |segs[k]| == 0 then [] else [segs[k]])
  {
    assert segs[..k + 1] == segs[..k] + [segs[k]];
    NonEmptySegmentsAppend(segs[..k], [segs[k]]);
  }

  /** While no empty segment has survived, `kept` is the filtered prefix
      `segs[..k]` followed by the untouched rest of `segs`, the iterator sits
      just past the filtered prefix, and no two adjacent empty segments have
      been passed. */
  ghost predicate Scanning(segs: seq<string>, kept: seq<string>, i: int, k: nat) {
    && k <= |segs|
    && kept == NonEmptySegments(segs[..k]) + segs[k..]
    && (i == |NonEmptySegments(segs[..k])| || (i == |NonEmptySegments(segs[..k])| + 1 && k == |segs|))
    && (0 < k < |segs| ==> |segs[k - 1]| != 0)
    && (forall j :: 0 <= j && j + 1 < k ==> |segs[j]| != 0 || |segs[j + 1]| != 0)
  }

  /** An empty segment sits behind the iterator, where it is never looked at again. */
  ghost predicate Survivor(kept: seq<string>, i: int) {
    exists j :: 0 <= j < i && j < |kept| && |kept[j]| == 0
  }

  lemma ScanKeep(segs: seq<string>, kept: seq<string>, i: int, k: nat)
    requires Scanning(segs, kept, i, k) && 0 <= i < |kept| && |kept[i]| != 0
    ensures Scanning(segs, kept, i + 1, k + 1)
  {
    NonEmptyPrefixStep(segs, k);
    assert kept[i] == segs[k];
    assert kept == (NonEmptySegments(segs[..k]) + [segs[k]]) + segs[k + 1..];
  }

  /** Where the scan stands when it meets an empty segment: it is the first
      empty one, at position `i`, and it is `segs[k]`. */
  lemma ScanAtEmpty(segs: seq<string>, kept: seq<string>, i: int, k: nat)
    requires Scanning(segs, kept, i, k) && 0 <= i < |kept| && |kept[i]| == 0
    ensures k < |segs| && i == |NonEmptySegments(segs[..k])| && |segs[k]| == 0
    ensures HasEmpty(kept) && FirstEmpty(kept) == i
    ensures RemoveFirstEmpty(kept) == NonEmptySegments(segs[..k]) + segs[k + 1..]
  {
    var p := NonEmptySegments(segs[..k]);
    assert HasEmpty(kept);
    var f := FirstEmpty(kept);
    assert f == i by {
      assert forall j :: 0 <= j < i ==> kept[j] == p[j] && |p[j]| != 0;
    }
    assert kept[i] == segs[k];
    assert kept[..f] == p;
    assert kept[f + 1..] == segs[k + 1..];
  }

  lemma ScanRemove(segs: seq<string>, kept: seq<string>, i: int, k: nat)
    requires Scanning(segs, kept, i, k) && 0 <= i < |kept| && |kept[i]| == 0
    ensures HasEmpty(kept)
    ensures k + 1 < |segs| && |segs[k + 1]| == 0 ==>
              HasAdjacentEmpty(segs) && Survivor(RemoveFirstEmpty(kept), i + 1)
    ensures !(k + 1 < |segs| && |segs[k + 1]| == 0) ==>
              Scanning(segs, RemoveFirstEmpty(kept), i + 1, if k + 1 < |segs| then k + 2 else k + 1)
  {
    ScanAtEmpty(segs, kept, i, k);
    if k + 1 < |segs| && |segs[k + 1]| == 0 {
      assert RemoveFirstEmpty(kept)[i] == segs[k + 1];
    } else if k + 1 < |segs| {
      ScanSkip(segs, kept, i, k);
    } else {
      ScanLast(segs, kept, i, k);
    }
  }

  /** The removal slides the next, non-empty, segment under the iterator,
      which then steps past it. */
  lemma ScanSkip(segs: seq<string>, kept: seq<string>, i: int, k: nat)
    requires Scanning(segs, kept, i, k) && 0 <= i < |kept| && |kept[i]| == 0
    requires k + 1 < |segs| && |segs[k + 1]| != 0
    ensures HasEmpty(kept)
    ensures Scanning(segs, RemoveFirstEmpty(kept), i + 1, k + 2)
  {
    ScanAtEmpty(segs, kept, i, k);
    SkipContents(segs, k);
    SkipAdjacency(segs, k);
  }

  lemma SkipContents(segs: seq<string>, k: nat)
    requires k + 1 < |segs| && |segs[k]| == 0 && |segs[k + 1]| != 0
    ensures NonEmptySegments(segs[..k]) + segs[k + 1..] == NonEmptySegments(segs[..k + 2]) + segs[k + 2..]
    ensures |NonEmptySegments(segs[..k + 2])| == |NonEmptySegments(segs[..k])| + 1
  {
    var p := NonEmptySegments(segs[..k]);
    NonEmptyPrefixStep(segs, k);
    NonEmptyPrefixStep(segs, k + 1);
    assert NonEmptySegments(segs[..k + 2]) == p + [segs[k + 1]];
    UnscannedShift(p, segs[k + 1..]);
    assert segs[k + 1..][1..] == segs[k + 2..];
  }

  lemma SkipAdjacency(segs: seq<string>, k: nat)
    requires k + 1 < |segs| && |segs[k + 1]| != 0
    requires 0 < k ==> |segs[k - 1]| != 0
    requires forall j :: 0 <= j && j + 1 < k ==> |segs[j]| != 0 || |segs[j + 1]| != 0
    ensures forall j :: 0 <= j && j + 1 < k + 2 ==> |segs[j]| != 0 || |segs[j + 1]| != 0
  {
  }

  /** Moving the next unscanned segment onto the scanned part leaves the list as it is. */
  lemma UnscannedShift(p: seq<string>, t: seq<string>)
    requires |t| >= 1
    ensures p + t == (p + [t[0]]) + t[1..]
  {
  }

  /** The removed empty segment was the last one: the iterator steps past the end. */
  lemma ScanLast(segs: seq<string>, kept: seq<string>, i: int, k: nat)
    requires Scanning(segs, kept, i, k) && 0 <= i < |kept| && |kept[i]| == 0
    requires k + 1 == |segs|
    ensures HasEmpty(kept)
    ensures Scanning(segs, RemoveFirstEmpty(kept), i + 1, k + 1)
  {
    ScanAtEmpty(segs, kept, i, k);
    LastContents(segs, k);
    LastAdjacency(segs, k);
  }

  lemma LastContents(segs: seq<string>, k: nat)
    requires k + 1 == |segs| && |segs[k]| == 0
    ensures NonEmptySegments(segs[..k]) + segs[k + 1..] == NonEmptySegments(segs[..k + 1]) + segs[k + 1..]
    ensures |NonEmptySegments(segs[..k + 1])| == |NonEmptySegments(segs[..k])|
  {
    NonEmptyPrefixStep(segs, k);
  }

  lemma LastAdjacency(segs: seq<string>, k: nat)
    requires k < |segs|
    requires 0 < k ==> |segs[k - 1]| != 0
    requires forall j :: 0 <= j && j + 1 < k ==> |segs[j]| != 0 || |segs[j + 1]| != 0
    ensures forall j :: 0 <= j && j + 1 < k + 1 ==> |segs[j]| != 0 || |segs[j + 1]| != 0
  {
  }

  lemma SurvivorRemove(kept: seq<string>, i: int)
    requires Survivor(kept, i) && 0 <= i < |kept| && |kept[i]| == 0
    ensures HasEmpty(kept)
    ensures Survivor(RemoveFirstEmpty(kept), i + 1)
  {
    var j :| 0 <= j < i && j < |kept| && |kept[j]| == 0;
    var f := FirstEmpty(kept);
    assert f <= j;
    assert RemoveFirstEmpty(kept)[i - 1] == kept[i];
  }

  lemma ScanDone(segs: seq<string>, kept: seq<string>, i: int, k: nat)
    requires Scanning(segs, kept, i, k) && i >= |kept|
    ensures kept == NonEmptySegments(segs)
    ensures !HasAdjacentEmpty(segs)
  {
    assert k == |segs|;
    assert segs[..k] == segs;
    assert forall j :: 0 <= j < |segs| - 1 ==> |segs[j]| != 0 || |segs[j + 1]| != 0;
  }

  /** The loop at the second step, as Python runs it: the list iterator keeps a
      position `i` and re-reads the length on every step, and `list.remove('')`
      deletes the FIRST empty segment. After a removal the element that slid
      into position `i` is never looked at, so of two adjacent empty segments
      one survives. The result keeps every non-empty segment in order, and it
      still holds an empty segment exactly when the input had two adjacent
      ones; otherwise it is the input with the empty segments filtered out. */
  method RemoveEmptySegments(segs: seq<string>) returns (kept: seq<string>)
    ensures NonEmptySegments(kept) == NonEmptySegments(segs)
    ensures HasEmpty(kept) <==> HasAdjacentEmpty(segs)
    ensures !HasAdjacentEmpty(segs) ==> kept == NonEmptySegments(segs)
  {
    kept := segs;
    var i := 0;
    ghost var k := 0;
    ghost var survived := false;
    RemovalStart(segs);
    while i < |kept|
      invariant NonEmptySegments(kept) == NonEmptySegments(segs)
      invariant Removal(segs, kept, i, k, survived)
      decreases |kept| - i
    {
      if |kept[i]| == 0 {
        k, survived := RemoveStep(segs, kept, i, k, survived);
        RemoveEmptyKeepsNonEmpty(kept);
        kept := RemoveFirstEmpty(kept);
      } else {
        k := KeepStep(segs, kept, i, k, survived);
      }
      i := i + 1;
    }
    RemovalDone(segs, kept, i, k, survived);
  }

  /** The state of the removal loop: either an empty segment has survived
      behind the iterator, or the scan is still exact. */
  ghost predicate Removal(segs: seq<string>, kept: seq<string>, i: int, k: nat, survived: bool) {
    if survived then HasAdjacentEmpty(segs) && Survivor(kept, i) else Scanning(segs, kept, i, k)
  }

  lemma RemovalStart(segs: seq<string>)
    ensures Removal(segs, segs, 0, 0, false)
  {
    assert segs[..0] == [] && segs[0..] == segs;
  }

  /** One step of the loop at an empty segment, which `remove` deletes. */
  lemma RemoveStep(segs: seq<string>, kept: seq<string>, i: int, k: nat, survived: bool)
    returns (k': nat, survived': bool)
    requires Removal(segs, kept, i, k, survived) && 0 <= i < |kept| && |kept[i]| == 0
    ensures HasEmpty(kept)
    ensures Removal(segs, RemoveFirstEmpty(kept), i + 1, k', survived')
  {
    if survived {
      SurvivorRemove(kept, i);
      k', survived' := k, true;
    } else {
      ScanRemove(segs, kept, i, k);
      if k + 1 < |segs| && |segs[k + 1]| == 0 {
        k', survived' := k, true;
      } else {
        k', survived' := if k + 1 < |segs| then k + 2 else k + 1, false;
      }
    }
  }

  /** One step of the loop at a non-empty segment, which stays. */
  lemma KeepStep(segs: seq<string>, kept: seq<string>, i: int, k: nat, survived: bool)
    returns (k': nat)
    requires Removal(segs, kept, i, k, survived) && 0 <= i < |kept| && |kept[i]| != 0
    ensures Removal(segs, kept, i + 1, k', survived)
  {
    if survived {
      k' := k;
    } else {
      ScanKeep(segs, kept, i, k);
      k' := k + 1;
    }
  }

  lemma RemovalDone(segs: seq<string>, kept: seq<string>, i: int, k: nat, survived: bool)
    requires Removal(segs, kept, i, k, survived) && i >= |kept|
    requires NonEmptySegments(kept) == NonEmptySegments(segs)
    ensures HasEmpty(kept) <==> HasAdjacentEmpty(segs)
    ensures !HasAdjacentEmpty(segs) ==> kept == NonEmptySegments(segs)
  {
    if !survived {
      ScanDone(segs, kept, i, k);
    } else {
      var j :| 0 <= j < i && j < |kept| && |kept[j]| == 0;
    }
  }

  // ---------------------------------------------------------------------------
  // Step 3: one leading space and every '.' go

  /** A segment after the third step: one leading space less, no '.', and
      nothing that was not in the segment before. */
  function CleanSegment(w: string): (c: string)
    requires |w| > 0
    ensures '.' !in c
    ensures |c| <= |w|
    ensures forall d :: d in c ==> d in w
    ensures w[0] != ' ' && '.' !in w ==> c == w
    ensures w[0] == ' ' && '.' !in w ==> c == w[1..]
  {
    var v := if w[0] == ' ' then w[1..] else w;
    RemoveChar(v, '.')
  }

  function CleanAll(segs: seq<string>): (r: seq<string>)
    requires !HasEmpty(segs)
    ensures |r| == |segs|
    ensures forall i :: 0 <= i < |segs| ==> r[i] == CleanSegment(segs[i])
  {
    seq(|segs|, i requires 0 <= i < |segs| => CleanSegment(segs[i]))
  }

  /** The loop at the third step. `word[0]` raises IndexError on the first
      empty segment it meets; otherwise every segment is cleaned in place. */
  method CleanSegments(segs: seq<string>) returns (r: Result<seq<string>>)
    ensures r.Err? <==> HasEmpty(segs)
    ensures r.Err? ==> r.error == IndexError
    ensures r.Ok? ==> |r.value| == |segs|
    ensures r.Ok? ==> forall i :: 0 <= i < |segs| ==> |segs[i]| > 0 && r.value[i] == CleanSegment(segs[i])
  {
    var list := segs;
    var index := 0;
    while index < |list|
      invariant index <= |list| == |segs|
      invariant forall j :: 0 <= j < index ==> |segs[j]| > 0 && list[j] == CleanSegment(segs[j])
      invariant list[index..] == segs[index..]
    {
      var word := list[index];
      assert word == segs[index];
      if |word| == 0 {
        return Err(IndexError);
      }
      if word[0] == ' ' {
        list := list[index := list[index][1..]];
      }
      list := list[index := RemoveChar(list[index], '.')];
      index := index + 1;
    }
    r := Ok(list);
  }

  // ---------------------------------------------------------------------------
  // Step 4: segments with a space are split into words; all is upper-cased

  /** An upper-cased token made from segment `w`: no lower-case letter, no
      space, and no character but letters that was not in `w`. */
  predicate TokenOf(t: string, w: string) {
    && NoLowerAscii(t)
    && ' ' !in t
    && forall c :: c in t && !IsAsciiLetter(c) ==> c in w
  }

  function UpperAll(words: seq<string>): (r: seq<string>)
    ensures |r| == |words|
  {
    if words == [] then [] else [Upper(words[0])] + UpperAll(words[1..])
  }

  lemma {:induction false} UpperAllAt(words: seq<string>, i: nat)
    requires i < |words|
    ensures UpperAll(words)[i] == Upper(words[i])
    decreases i
  {
    if i > 0 {
      UpperAllAt(words[1..], i - 1);
    }
  }

  lemma {:induction false} UpperAllAppend(a: seq<string>, b: seq<string>)
    ensures UpperAll(a + b) == UpperAll(a) + UpperAll(b)
    decreases |a|
  {
    if a == [] {
      assert a + b == b;
    } else {
      assert (a + b)[0] == a[0];
      assert (a + b)[1..] == a[1..] + b;
      UpperAllAppend(a[1..], b);
    }
  }

  /** The tokens one segment contributes: the segment itself when it holds no
      space, its whitespace-separated words otherwise. */
  function SegmentTokens(w: string): (ts: seq<string>)
    ensures ' ' !in w ==> |ts| == 1
    ensures ' ' in w ==> |ts| == |SplitWs(w)|
  {
    if ' ' in w then UpperAll(SplitWs(w)) else [Upper(w)]
  }

  /** Each token of a segment is upper-case, holds no space, and holds no
      character but letters that the segment did not. */
  lemma SegmentTokensShape(w: string)
    ensures forall i :: 0 <= i < |SegmentTokens(w)| ==> TokenOf(SegmentTokens(w)[i], w)
  {
    var ts := SegmentTokens(w);
    if ' ' in w {
      var words := SplitWs(w);
      forall i | 0 <= i < |words| ensures TokenOf(ts[i], w) {
        UpperAllAt(words, i);
        WordCharsFrom(w, i);
        UpperTokenOf(words[i], w);
      }
    } else {
      UpperTokenOf(w, w);
    }
  }

  lemma UpperTokenOf(word: string, w: string)
    requires ' ' !in word
    requires forall c :: c in word ==> c in w
    ensures TokenOf(Upper(word), w)
  {
    UpperKeepsNonLetters(word);
  }

  lemma WordCharsFrom(w: string, i: nat)
    requires i < |SplitWs(w)|
    ensures ' ' !in SplitWs(w)[i]
    ensures forall c :: c in SplitWs(w)[i] ==> c in w
  {
    var words := SplitWs(w);
    SplitWsWords(w);
    assert NoPySpace(words[i]);
    assert IsPySpace(' ');
    SplitWsKeepsText(w);
    forall c | c in words[i] ensures c in w {
      ConcatHolds(words, i, c);
      NonSpaceCharsIn(w, c);
    }
  }

  lemma {:induction false} ConcatHolds(words: seq<string>, i: nat, c: char)
    requires i < |words| && c in words[i]
    ensures c in Concat(words)
    decreases i
  {
    if i > 0 {
      ConcatHolds(words[1..], i - 1, c);
    }
  }

  lemma {:induction false} NonSpaceCharsIn(s: string, c: char)
    requires c in NonSpaceChars(s)
    ensures c in s
    decreases |s|
  {
    if s != [] && s[0] != c {
      NonSpaceCharsIn(s[1..], c);
    }
  }

  /** All segments' tokens, left to right. */
  function TokensOf(segs: seq<string>): seq<string> {
    if segs == [] then [] else SegmentTokens(segs[0]) + TokensOf(segs[1..])
  }

  /** Tokens keep the order of the segments they come from. */
  lemma {:induction false} TokensOfAppend(a: seq<string>, b: seq<string>)
    ensures TokensOf(a + b) == TokensOf(a) + TokensOf(b)
    decreases |a|
  {
    if a == [] {
      assert a + b == b;
    } else {
      assert (a + b)[0] == a[0];
      assert (a + b)[1..] == a[1..] + b;
      TokensOfAppend(a[1..], b);
    }
  }

  lemma TokensOfSnoc(segs: seq<string>, i: nat)
    requires i < |segs|
    ensures TokensOf(segs[..i + 1]) == TokensOf(segs[..i]) + SegmentTokens(segs[i])
  {
    assert segs[..i + 1] == segs[..i] + [segs[i]];
    TokensOfAppend(segs[..i], [segs[i]]);
    assert TokensOf([segs[i]]) == SegmentTokens(segs[i]) + [];
  }

  lemma UpperAllSnoc(words: seq<string>, j: nat)
    requires j < |words|
    ensures UpperAll(words[..j + 1]) == UpperAll(words[..j]) + [Upper(words[j])]
  {
    assert words[..j + 1] == words[..j] + [words[j]];
    UpperAllAppend(words[..j], [words[j]]);
  }

  /** One pass of the inner loop appends the next upper-cased word. */
  lemma WordStep(start: seq<string>, tokens: seq<string>, aux: seq<string>, j: nat)
    requires j < |aux| && tokens == start + UpperAll(aux[..j])
    ensures tokens + [Upper(aux[j])] == start + UpperAll(aux[..j + 1])
  {
    UpperAllSnoc(aux, j);
    assert (start + UpperAll(aux[..j])) + [Upper(aux[j])] == start + (UpperAll(aux[..j]) + [Upper(aux[j])]);
  }

  /** After the inner loop a spaced segment has contributed its tokens. */
  lemma SpacedSegmentDone(word: string, aux: seq<string>)
    requires ' ' in word && aux == SplitWs(word)
    ensures UpperAll(aux[..|aux|]) == SegmentTokens(word)
  {
    assert aux[..|aux|] == aux;
  }

  /** The loops at the fourth step. */
  method SplitSegments(segs: seq<string>) returns (tokens: seq<string>)
    ensures tokens == TokensOf(segs)
  {
    tokens := [];
    var i := 0;
    while i < |segs|
      invariant i <= |segs|
      invariant tokens == TokensOf(segs[..i])
    {
      var word := segs[i];
      TokensOfSnoc(segs, i);
      if ' ' in word {
        var aux := SplitWs(word);
        ghost var start := tokens;
        for j := 0 to |aux|
          invariant tokens == start + UpperAll(aux[..j])
        {
          WordStep(start, tokens, aux, j);
          tokens := tokens + [Upper(aux[j])];
        }
        SpacedSegmentDone(word, aux);
      } else {
        assert SegmentTokens(word) == [Upper(word)];
        tokens := tokens + [Upper(word)];
      }
      i := i + 1;
    }
    assert segs[..i] == segs;
  }

  // ---------------------------------------------------------------------------
  // The whole tokenizer

  /** The tokenizer as a pure pipeline: comma split, empty segments filtered
      out, segments cleaned, then split and upper-cased. */
  function Tokenize(address: string): seq<string> {
    TokensOf(CleanAll(NonEmptySegments(SplitOn(address, ','))))
  }

  /** `address_handler`. It fails with IndexError exactly when the comma split
      has two adjacent empty segments (one of them survives the second step
      and reaches `word[0]`); otherwise it returns `Tokenize(fullAddress)`. */
  method AddressHandler(fullAddress: string) returns (r: Result<seq<string>>)
    ensures r.Err? <==> HasAdjacentEmpty(SplitOn(fullAddress, ','))
    ensures r.Err? ==> r.error == IndexError
    ensures r.Ok? ==> r.value == Tokenize(fullAddress)
  {
    var separated := SplitOn(fullAddress, ',');
    var kept := RemoveEmptySegments(separated);
    var cleaned := CleanSegments(kept);
    if cleaned.Err? {
      return Err(cleaned.error);
    }
    assert cleaned.value == CleanAll(kept);
    var tokens := SplitSegments(cleaned.value);
    r := Ok(tokens);
  }

  // ---------------------------------------------------------------------------
  // Properties of the tokens

  /** What every token looks like: upper-case, and without ',', '.' or ' '. */
  predicate IsToken(t: string) {
    NoLowerAscii(t) && ',' !in t && '.' !in t && ' ' !in t
  }

  lemma {:induction false} TokensOfShape(segs: seq<string>)
    requires forall i :: 0 <= i < |segs| ==> ',' !in segs[i] && '.' !in segs[i]
    ensures forall i :: 0 <= i < |TokensOf(segs)| ==> IsToken(TokensOf(segs)[i])
    decreases |segs|
  {
    if segs != [] {
      TokensOfShape(segs[1..]);
      var head := SegmentTokens(segs[0]);
      var tail := TokensOf(segs[1..]);
      SegmentTokensShape(segs[0]);
      forall i | 0 <= i < |head| ensures IsToken(head[i]) {
        assert TokenOf(head[i], segs[0]);
      }
      assert TokensOf(segs) == head + tail;
    }
  }

  /** Every token `address_handler` returns is upper-case and holds no ',',
      no '.' and no space. */
  lemma TokenizeShape(address: string)
    ensures forall i :: 0 <= i < |Tokenize(address)| ==> IsToken(Tokenize(address)[i])
  {
    var kept := NonEmptySegments(SplitOn(address, ','));
    NonEmptySegmentsLack(SplitOn(address, ','), ',');
    TokensOfShape(CleanAll(kept));
  }

  /** A segment without a space is one token; a segment with a space gives
      its words, in order. */
  lemma SegmentContribution(w: string)
    ensures ' ' !in w ==> SegmentTokens(w) == [Upper(w)]
    ensures ' ' in w ==> SegmentTokens(w) == UpperAll(SplitWs(w))
    ensures ' ' in w ==> Concat(SplitWs(w)) == NonSpaceChars(w)
  {
    if ' ' in w {
      SplitWsKeepsText(w);
    }
  }
}
