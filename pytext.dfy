/** The Python string operations the tokenizer relies on: `str.split(sep)`,
    `str.split()` (no argument), `str.replace(c, '')` and an ASCII `str.upper()`. */
module PyText {

  /** The characters Python's `str.isspace()` accepts; `str.split()` with no
      argument splits on runs of these. */
  predicate IsPySpace(c: char) {
    || ('\U{09}' <= c <= '\U{0D}')
    || ('\U{1C}' <= c <= '\U{1F}')
    || c == ' '
    || c == '\U{85}'
    || c == '\U{A0}'
    || c == '\U{1680}'
    || ('\U{2000}' <= c <= '\U{200A}')
    || c == '\U{2028}'
    || c == '\U{2029}'
    || c == '\U{202F}'
    || c == '\U{205F}'
    || c == '\U{3000}'
  }

  predicate NoPySpace(w: string) {
    forall i :: 0 <= i < |w| ==> !IsPySpace(w[i])
  }

  predicate IsLowerAscii(c: char) { 'a' <= c <= 'z' }

  predicate IsAsciiLetter(c: char) { 'a' <= c <= 'z' || 'A' <= c <= 'Z' }

  /** No character of `w` is a lower-case (ASCII) letter. */
  predicate NoLowerAscii(w: string) {
    forall i :: 0 <= i < |w| ==> !IsLowerAscii(w[i])
  }

  /** Number of occurrences of `c` in `s`. */
  function Occurrences(s: string, c: char): nat {
    if s == [] then 0 else (if s[0] == c then 1 else 0) + Occurrences(s[1..], c)
  }

  // ---------------------------------------------------------------------------
  // str.upper(), on the ASCII letters

  function UpperChar(c: char): (u: char)
    ensures !IsLowerAscii(u)
    ensures IsLowerAscii(c) ==> 'A' <= u <= 'Z' && u as int - 'A' as int == c as int - 'a' as int
    ensures !IsLowerAscii(c) ==> u == c
  {
    if IsLowerAscii(c) then (c as int - 32) as char else c
  }

  /** `s.upper()`: same length and no lower-case letter left. */
  function Upper(s: string): (u: string)
    ensures |u| == |s|
    ensures NoLowerAscii(u)
  {
    if s == [] then [] else [UpperChar(s[0])] + Upper(s[1..])
  }

  lemma {:induction false} UpperAt(s: string, i: nat)
    requires i < |s|
    ensures Upper(s)[i] == UpperChar(s[i])
    decreases i
  {
    if i > 0 {
      UpperAt(s[1..], i - 1);
    }
  }

  /** Upper-casing moves no character that is not a letter, so such a
      character is in `Upper(s)` exactly when it is in `s`. */
  lemma UpperKeepsNonLetters(s: string)
    ensures forall i :: 0 <= i < |s| && !IsAsciiLetter(s[i]) ==> Upper(s)[i] == s[i]
    ensures forall c :: !IsAsciiLetter(c) ==> (c in Upper(s) <==> c in s)
  {
    var u := Upper(s);
    forall i | 0 <= i < |s| ensures u[i] == UpperChar(s[i]) {
      UpperAt(s, i);
    }
    forall c | !IsAsciiLetter(c)
      ensures c in u <==> c in s
    {
      if c in u {
        var i :| 0 <= i < |u| && u[i] == c;
        assert s[i] == c;
      }
      if c in s {
        var i :| 0 <= i < |s| && s[i] == c;
        assert u[i] == c;
      }
    }
  }

  /** Upper-casing twice is upper-casing once. */
  lemma UpperIdempotent(s: string)
    ensures Upper(Upper(s)) == Upper(s)
  {
    var u := Upper(s);
    forall i | 0 <= i < |u| ensures Upper(u)[i] == u[i] {
      UpperAt(u, i);
    }
  }

  /** Upper-casing works character by character, so it distributes over
      concatenation. */
  lemma {:induction false} UpperAppend(a: string, b: string)
    ensures Upper(a + b) == Upper(a) + Upper(b)
    decreases |a|
  {
    if a == [] {
      assert a + b == b;
    } else {
      assert (a + b)[0] == a[0];
      assert (a + b)[1..] == a[1..] + b;
      UpperAppend(a[1..], b);
    }
  }

  // ---------------------------------------------------------------------------
  // str.replace(c, '')

  /** `s.replace(c, '')`: every `c` is gone, every other character is kept. */
  function RemoveChar(s: string, c: char): (r: string)
    ensures c !in r
    ensures |r| + Occurrences(s, c) == |s|
    ensures forall d :: d != c ==> (d in r <==> d in s)
    ensures c !in s ==> r == s
  {
    if s == [] then []
    else if s[0] == c then RemoveChar(s[1..], c)
    else [s[0]] + RemoveChar(s[1..], c)
  }

  /** Removing `c` works piece by piece, so the kept characters stay in order. */
  lemma {:induction false} RemoveCharAppend(a: string, b: string, c: char)
    ensures RemoveChar(a + b, c) == RemoveChar(a, c) + RemoveChar(b, c)
    decreases |a|
  {
    if a == [] {
      assert a + b == b;
    } else {
      assert (a + b)[0] == a[0];
      assert (a + b)[1..] == a[1..] + b;
      RemoveCharAppend(a[1..], b, c);
    }
  }

  /** A trailing `c` after a `c`-free string is dropped and nothing else is. */
  lemma {:induction false} RemoveCharLast(v: string, c: char)
    requires c !in v
    ensures RemoveChar(v + [c], c) == v
    decreases |v|
  {
    if v == [] {
      assert v + [c] == [c] && [c][1..] == [];
    } else {
      assert (v + [c])[0] == v[0];
      assert (v + [c])[1..] == v[1..] + [c];
      RemoveCharLast(v[1..], c);
      assert v == [v[0]] + v[1..];
    }
  }

  // ---------------------------------------------------------------------------
  // str.split(sep)

  /** `s.split(sep)`: the pieces between the separators, empty pieces
      included; there is always one piece more than there are separators. */
  function SplitOn(s: string, sep: char): (parts: seq<string>)
    ensures |parts| == Occurrences(s, sep) + 1
    ensures forall i :: 0 <= i < |parts| ==> sep !in parts[i]
    decreases |s|
  {
    if s == [] then [[]]
    else
      var rest := SplitOn(s[1..], sep);
      if s[0] == sep then [[]] + rest
      else [[s[0]] + rest[0]] + rest[1..]
  }

  /** `sep.join(parts)` */
  function Join(parts: seq<string>, sep: char): string
    requires |parts| >= 1
  {
    if |parts| == 1 then parts[0] else parts[0] + [sep] + Join(parts[1..], sep)
  }

  lemma {:induction false} JoinConsChar(c: char, p: string, ps: seq<string>, sep: char)
    ensures Join([[c] + p] + ps, sep) == [c] + Join([p] + ps, sep)
  {
    if ps != [] {
      assert ([[c] + p] + ps)[1..] == ps == ([p] + ps)[1..];
    }
  }

  /** Joining the pieces of a split with the separator gives the string back. */
  lemma {:induction false} JoinSplit(s: string, sep: char)
    ensures Join(SplitOn(s, sep), sep) == s
    decreases |s|
  {
    if s != [] {
      var rest := SplitOn(s[1..], sep);
      JoinSplit(s[1..], sep);
      if s[0] == sep {
        assert ([[]] + rest)[1..] == rest;
      } else {
        assert [rest[0]] + rest[1..] == rest;
        JoinConsChar(s[0], rest[0], rest[1..], sep);
      }
    }
  }

  /** A prefix without the separator glues onto the first piece. */
  lemma {:induction false} SplitOnPrefix(a: string, b: string, sep: char)
    requires sep !in a
    ensures SplitOn(a + b, sep) == [a + SplitOn(b, sep)[0]] + SplitOn(b, sep)[1..]
    decreases |a|
  {
    var sb := SplitOn(b, sep);
    if a == [] {
      assert a + b == b;
      assert a + sb[0] == sb[0];
      assert [sb[0]] + sb[1..] == sb;
    } else {
      assert a[0] in a;
      assert (a + b)[0] == a[0] != sep;
      assert (a + b)[1..] == a[1..] + b;
      SplitOnPrefix(a[1..], b, sep);
      var rest := SplitOn(a[1..] + b, sep);
      assert rest == [a[1..] + sb[0]] + sb[1..];
      assert SplitOn(a + b, sep) == [[a[0]] + rest[0]] + rest[1..];
      assert [a[0]] + (a[1..] + sb[0]) == a + sb[0];
    }
  }

  lemma SplitOnNoSep(a: string, sep: char)
    requires sep !in a
    ensures SplitOn(a, sep) == [a]
  {
    SplitOnPrefix(a, [], sep);
    assert a + [] == a;
  }

  lemma SplitOnField(a: string, b: string, sep: char)
    requires sep !in a
    ensures SplitOn(a + [sep] + b, sep) == [a] + SplitOn(b, sep)
  {
    SplitOnPrefix(a, [sep] + b, sep);
    assert a + [sep] + b == a + ([sep] + b);
    assert ([sep] + b)[0] == sep;
    assert ([sep] + b)[1..] == b;
    assert SplitOn([sep] + b, sep) == [[]] + SplitOn(b, sep);
    assert a + [] == a;
  }

  /** Three separator-free fields and two separators split into the three fields. */
  lemma SplitOnThree(a: string, b: string, c: string, sep: char)
    requires sep !in a && sep !in b && sep !in c
    ensures SplitOn(a + [sep] + b + [sep] + c, sep) == [a, b, c]
  {
    assert a + [sep] + b + [sep] + c == a + [sep] + (b + [sep] + c);
    SplitOnField(a, b + [sep] + c, sep);
    SplitOnField(b, c, sep);
    SplitOnNoSep(c, sep);
  }

  /** Splitting a join of separator-free pieces gives the pieces back. */
  lemma {:induction false} SplitJoin(parts: seq<string>, sep: char)
    requires |parts| >= 1
    requires forall i :: 0 <= i < |parts| ==> sep !in parts[i]
    ensures SplitOn(Join(parts, sep), sep) == parts
    decreases |parts|
  {
    if |parts| == 1 {
      SplitOnNoSep(parts[0], sep);
    } else {
      SplitJoin(parts[1..], sep);
      SplitOnField(parts[0], Join(parts[1..], sep), sep);
      assert [parts[0]] + parts[1..] == parts;
    }
  }

  // ---------------------------------------------------------------------------
  // str.split() with no argument

  /** `s.lstrip()`: the suffix left after the leading whitespace. */
  function DropLeadingSpace(s: string): (t: string)
    ensures |t| <= |s| && t == s[|s| - |t|..]
    ensures t == [] || !IsPySpace(t[0])
    ensures forall i :: 0 <= i < |s| - |t| ==> IsPySpace(s[i])
  {
    if s != [] && IsPySpace(s[0]) then DropLeadingSpace(s[1..]) else s
  }

  /** The longest prefix of `s` without whitespace. */
  function LeadingWord(s: string): (w: string)
    ensures |w| <= |s| && w == s[..|w|]
    ensures NoPySpace(w)
    ensures |w| == |s| || IsPySpace(s[|w|])
  {
    if s == [] || IsPySpace(s[0]) then [] else [s[0]] + LeadingWord(s[1..])
  }

  /** `s.split()`: the maximal runs of non-whitespace characters, in order. */
  function SplitWs(s: string): (words: seq<string>)
    decreases |s|
  {
    var t := DropLeadingSpace(s);
    if t == [] then []
    else
      var w := LeadingWord(t);
      assert |w| >= 1 by { assert !IsPySpace(t[0]); }
      [w] + SplitWs(t[|w|..])
  }

  /** `split()` of the empty string has no word. */
  lemma SplitWsEmpty()
    ensures SplitWs([]) == []
  {
  }

  /** Leading whitespace is skipped, so a run of whitespace separates words
      exactly as one character does. */
  lemma SplitWsSkip(sp: char, b: string)
    requires IsPySpace(sp)
    ensures SplitWs([sp] + b) == SplitWs(b)
  {
    assert ([sp] + b)[1..] == b;
  }

  /** No word of `s.split()` is empty, and none holds whitespace. */
  lemma {:induction false} SplitWsWords(s: string)
    ensures forall i :: 0 <= i < |SplitWs(s)| ==> SplitWs(s)[i] != [] && NoPySpace(SplitWs(s)[i])
    decreases |s|
  {
    var t := DropLeadingSpace(s);
    if t != [] {
      var w := LeadingWord(t);
      assert |w| >= 1 by { assert !IsPySpace(t[0]); }
      var rest := SplitWs(t[|w|..]);
      SplitWsWords(t[|w|..]);
      WordsCons(SplitWs(s), w, rest);
    }
  }

  lemma WordsCons(words: seq<string>, w: string, rest: seq<string>)
    requires words == [w] + rest && w != [] && NoPySpace(w)
    requires forall i :: 0 <= i < |rest| ==> rest[i] != [] && NoPySpace(rest[i])
    ensures forall i :: 0 <= i < |words| ==> words[i] != [] && NoPySpace(words[i])
  {
    forall i | 0 <= i < |words| ensures words[i] != [] && NoPySpace(words[i]) {
      if i > 0 {
        assert words[i] == rest[i - 1];
      }
    }
  }

  function Concat(words: seq<string>): string {
    if words == [] then [] else words[0] + Concat(words[1..])
  }

  /** The characters of `s` that are not whitespace, in order. */
  function NonSpaceChars(s: string): (r: string)
    ensures NoPySpace(r)
  {
    if s == [] then [] else if IsPySpace(s[0]) then NonSpaceChars(s[1..]) else [s[0]] + NonSpaceChars(s[1..])
  }

  lemma {:induction false} NonSpaceCharsAppend(a: string, b: string)
    ensures NonSpaceChars(a + b) == NonSpaceChars(a) + NonSpaceChars(b)
    decreases |a|
  {
    if a == [] {
      assert a + b == b;
    } else {
      assert (a + b)[0] == a[0];
      assert (a + b)[1..] == a[1..] + b;
      NonSpaceCharsAppend(a[1..], b);
    }
  }

  lemma {:induction false} NonSpaceCharsOfWord(w: string)
    requires NoPySpace(w)
    ensures NonSpaceChars(w) == w
    decreases |w|
  {
    if w != [] {
      NonSpaceCharsOfWord(w[1..]);
    }
  }

  lemma {:induction false} NonSpaceCharsOfBlank(s: string)
    requires forall i :: 0 <= i < |s| ==> IsPySpace(s[i])
    ensures NonSpaceChars(s) == []
    decreases |s|
  {
    if s != [] {
      NonSpaceCharsOfBlank(s[1..]);
    }
  }

  lemma NonSpaceCharsAfterBlank(s: string)
    ensures NonSpaceChars(s) == NonSpaceChars(DropLeadingSpace(s))
  {
    var t := DropLeadingSpace(s);
    var blank := s[..|s| - |t|];
    assert s == blank + t;
    NonSpaceCharsAppend(blank, t);
    NonSpaceCharsOfBlank(blank);
  }

  lemma NonSpaceCharsOfWordThen(t: string)
    ensures NonSpaceChars(t) == LeadingWord(t) + NonSpaceChars(t[|LeadingWord(t)|..])
  {
    var w := LeadingWord(t);
    var rest := t[|w|..];
    assert t == w + rest;
    NonSpaceCharsAppend(w, rest);
    NonSpaceCharsOfWord(w);
  }

  /** `s.split()` loses exactly the whitespace: the words put back together
      are the non-whitespace characters of `s`, in order. */
  lemma {:induction false} SplitWsKeepsText(s: string)
    ensures Concat(SplitWs(s)) == NonSpaceChars(s)
    decreases |s|
  {
    var t := DropLeadingSpace(s);
    NonSpaceCharsAfterBlank(s);
    if t != [] {
      var w := LeadingWord(t);
      var rest := t[|w|..];
      assert |w| >= 1 by { assert !IsPySpace(t[0]); }
      var words := SplitWs(s);
      assert words == [w] + SplitWs(rest);
      NonSpaceCharsOfWordThen(t);
      SplitWsKeepsText(rest);
      assert words[1..] == SplitWs(rest);
    }
  }

  /** A word followed by whitespace is split off as the first word. */
  lemma SplitWsField(w: string, sp: char, b: string)
    requires w != [] && NoPySpace(w) && IsPySpace(sp)
    ensures SplitWs(w + [sp] + b) == [w] + SplitWs(b)
  {
    var s := w + [sp] + b;
    assert DropLeadingSpace(s) == s;
    LeadingWordOf(w, [sp] + b);
    assert s == w + ([sp] + b);
    assert s[|w|..] == [sp] + b;
    assert DropLeadingSpace([sp] + b) == DropLeadingSpace(b);
  }

  lemma {:induction false} LeadingWordOf(w: string, rest: string)
    requires NoPySpace(w)
    requires rest == [] || IsPySpace(rest[0])
    ensures LeadingWord(w + rest) == w
    decreases |w|
  {
    if w != [] {
      assert (w + rest)[1..] == w[1..] + rest;
      LeadingWordOf(w[1..], rest);
    } else {
      assert w + rest == rest;
    }
  }

  /** A non-empty string without whitespace is one word. */
  lemma SplitWsWord(w: string)
    requires w != [] && NoPySpace(w)
    ensures SplitWs(w) == [w]
  {
    LeadingWordOf(w, []);
    assert w + [] == w;
    assert w[|w|..] == [];
  }
}
