/**
 * Why the `exec` loops of `extractSources` see every citation in a reply:
 * matches of one expression never overlap, so no match found earlier runs
 * past a later one. With that, a citation written anywhere in the text is
 * extracted under the reference built from its own groups.
 */
module CitationScan {
  import opened Wrappers
  import opened Text
  import opened ChatSources

  /** What every match of pattern `p` starts with, case aside: `q`, or `s` then `u` or `ah`. */
  predicate Lead(p: Pattern, s: string, i: nat) {
    match p
    case QuranPattern => i < |s| && LowerAscii(s[i]) == 'q'
    case HadithPattern =>
      i + 2 < |s| && LowerAscii(s[i]) == 's' &&
      (LowerAscii(s[i + 1]) == 'u' || (LowerAscii(s[i + 1]) == 'a' && LowerAscii(s[i + 2]) == 'h'))
  }

  /** A case-insensitive match, character by character. */
  lemma MatchedChars(s: string, i: nat, w: string)
    requires MatchesAt(s, i, w)
    ensures forall o :: 0 <= o < |w| ==> LowerAscii(s[i + o]) == LowerAscii(w[o])
  {
    forall o | 0 <= o < |w| ensures LowerAscii(s[i + o]) == LowerAscii(w[o]) {
      assert s[i..i + |w|][o] == s[i + o];
    }
  }

  /** A word that starts with a hadith lead: `Sahih` and `Sunan` do. */
  predicate IsLeadWord(w: string) {
    |w| > 2 && LowerAscii(w[0]) == 's' &&
    (LowerAscii(w[1]) == 'u' || (LowerAscii(w[1]) == 'a' && LowerAscii(w[2]) == 'h'))
  }

  lemma CollectionsLead(k: nat)
    requires k < CollectionCount
    ensures IsLeadWord(Collection(k)[0]) && |Collection(k)[0]| == 5
  {
    assert IsLeadWord("Sahih") && IsLeadWord("Sunan");
  }

  lemma LeadWordMatched(s: string, i: nat, w: string)
    requires MatchesAt(s, i, w) && IsLeadWord(w)
    ensures Lead(HadithPattern, s, i)
  {
    MatchedChars(s, i, w);
    assert LowerAscii(s[i + 0]) == LowerAscii(w[0]);
    assert LowerAscii(s[i + 1]) == LowerAscii(w[1]);
    assert LowerAscii(s[i + 2]) == LowerAscii(w[2]);
  }

  lemma QuranLead(s: string, i: nat)
    requires MatchesAt(s, i, "Quran")
    ensures Lead(QuranPattern, s, i)
  {
    MatchedChars(s, i, "Quran");
    assert LowerAscii(s[i + 0]) == LowerAscii("Quran"[0]);
  }

  /** Every match starts with its pattern's lead. */
  lemma MatchLead(p: Pattern, s: string, i: nat)
    requires i <= |s| && MatchAt(p, s, i).Some?
    ensures Lead(p, s, i)
  {
    match p
    case QuranPattern =>
      QuranAtParts(s, i);
      QuranLead(s, i);
    case HadithPattern =>
      var k := HadithFrom(s, i, 0).value.collectionIndex;
      PhraseCitationParts(s, i, k, Collection(k));
      CollectionsLead(k);
      LeadWordMatched(s, i, Collection(k)[0]);
  }

  /** Whitespace, digits, `:` and `-`: the characters a match holds besides its words. */
  predicate Filler(c: char) {
    IsJsWhitespace(c) || IsAsciiDigit(c) || c == ':' || c == '-'
  }

  /** What `\s+(\d+):(\d+)` matches is filler. */
  lemma NumbersFiller(s: string, a: nat, q: nat)
    requires a <= |s| && NumbersAt(s, a).Some? && a <= q < a + |NumbersText(NumbersAt(s, a).value)|
    ensures Filler(s[q])
  {
    var b := RunEnd(s, a, Space);
    var c := RunEnd(s, b, Digit);
    var d := RunEnd(s, c + 1, Digit);
    assert NumbersAt(s, a).value == Numbers(s[a..b], s[b..c], s[c + 1..d]);
    if q < b {
      assert InClass(Space, s[q]);
    } else if q < c {
      assert InClass(Digit, s[q]);
    } else if q > c {
      assert InClass(Digit, s[q]);
    }
  }

  /** What `(?:-(\d+))?` matches is filler. */
  lemma RangeFiller(s: string, f: nat, q: nat)
    requires f <= |s| && RangeAt(s, f).Some? && f <= q < f + 1 + |RangeAt(s, f).value|
    ensures Filler(s[q])
  {
    var r := RangeAt(s, f).value;
    OccursChars(s, f, "-" + r);
    assert s[q] == ("-" + r)[q - f];
  }

  /** The letters of `Quran` after the first are not `q`. */
  lemma QuranWordInterior(s: string, j: nat, i: nat)
    requires MatchesAt(s, j, "Quran") && j < i < j + 5
    ensures !Lead(QuranPattern, s, i)
  {
    MatchedChars(s, j, "Quran");
    var o := i - j;
    assert LowerAscii(s[j + o]) == LowerAscii("Quran"[o]);
    assert "Quran"[o] in "uran" by {
      assert "Quran"[o] == "Quran"[1..][o - 1];
    }
  }

  /** A Quran match: the word, the numbers from `j + 5` on, then the range end if one follows. */
  lemma QuranExtent(s: string, j: nat)
    requires j <= |s| && QuranAt(s, j).Some?
    ensures MatchesAt(s, j, "Quran") && j + 5 <= |s| && NumbersAt(s, j + 5).Some?
    ensures var f := j + 5 + |NumbersText(NumbersAt(s, j + 5).value)|;
      f <= |s| &&
      MatchEnd(QuranAt(s, j).value) == f + (if RangeAt(s, f).Some? then 1 + |RangeAt(s, f).value| else 0)
  {
    QuranAtParts(s, j);
    QuranFromParts(s, j, j + 5);
  }

  /** No position inside a Quran match after its first character is the lead of another. */
  lemma QuranInterior(s: string, j: nat, i: nat)
    requires j < i <= |s| && QuranAt(s, j).Some? && i < MatchEnd(QuranAt(s, j).value)
    ensures !Lead(QuranPattern, s, i)
  {
    QuranExtent(s, j);
    var a := j + 5;
    var f := a + |NumbersText(NumbersAt(s, a).value)|;
    if i < a {
      QuranWordInterior(s, j, i);
    } else if i < f {
      NumbersFiller(s, a, i);
    } else {
      assert RangeAt(s, f).Some?;
      RangeFiller(s, f, i);
    }
  }

  /** From offset `o` on, every `s` of `w` is followed, inside `w`, by neither `u` nor `ah` (case aside). */
  predicate WordClear(w: string, o: nat)
    decreases |w| - o
  {
    o >= |w| ||
    ((LowerAscii(w[o]) == 's' ==>
        o + 2 < |w| && LowerAscii(w[o + 1]) != 'u' && (LowerAscii(w[o + 1]) != 'a' || LowerAscii(w[o + 2]) != 'h')) &&
     WordClear(w, o + 1))
  }

  /** In a clear word, an `s` at or after `from` is followed by two letters other than `u` and `ah`. */
  lemma {:induction false} WordClearAt(w: string, from: nat, o: nat)
    requires WordClear(w, from) && from <= o < |w|
    ensures LowerAscii(w[o]) == 's' ==>
      o + 2 < |w| && LowerAscii(w[o + 1]) != 'u' && (LowerAscii(w[o + 1]) != 'a' || LowerAscii(w[o + 2]) != 'h')
    decreases o - from
  {
    if from < o {
      WordClearAt(w, from + 1, o);
    }
  }

  /** The first word is clear from `from` on, every later word from its start. */
  predicate WordsClear(words: seq<string>, from: nat) {
    |words| > 0 && WordClear(words[0], from) && forall w :: 1 <= w < |words| ==> WordClear(words[w], 0)
  }

  lemma WordsClearTail(words: seq<string>, from: nat)
    requires |words| > 1 && WordsClear(words, from)
    ensures WordsClear(words[1..], 0)
  {
    assert words[1..][0] == words[1];
    forall w | 1 <= w < |words[1..]| ensures WordClear(words[1..][w], 0) {
      assert words[1..][w] == words[w + 1];
    }
  }

  /** No collection name holds the start of a collection name after its first letter. */
  lemma CollectionsClear(k: nat)
    requires k < CollectionCount
    ensures WordsClear(Collection(k), 1)
  {
    if k == 0 {
      assert WordClear("Sahih", 1) && WordClear("Bukhari", 0);
    } else if k == 1 {
      assert WordClear("Sahih", 1) && WordClear("Muslim", 0);
    } else if k == 2 {
      assert WordClear("Sunan", 1) && WordClear("Abi", 0) && WordClear("Dawud", 0);
    } else if k == 3 {
      assert WordClear("Sunan", 1) && WordClear("At-Tirmidhi", 0);
    } else if k == 4 {
      assert WordClear("Sunan", 1) && WordClear("An-Nasa'i", 0);
    } else {
      assert WordClear("Sunan", 1) && WordClear("Ibn", 0) && WordClear("Majah", 0);
    }
  }

  /** Inside one matched word, past `from`, no position is the lead of a hadith match. */
  lemma WordInterior(s: string, j: nat, w: string, from: nat, i: nat)
    requires MatchesAt(s, j, w) && WordClear(w, from) && j + from <= i < j + |w|
    ensures !Lead(HadithPattern, s, i)
  {
    var o := i - j;
    WordClearAt(w, from, o);
    MatchedChars(s, j, w);
    assert LowerAscii(s[j + o]) == LowerAscii(w[o]);
    if LowerAscii(w[o]) == 's' {
      assert LowerAscii(s[j + (o + 1)]) == LowerAscii(w[o + 1]);
      assert LowerAscii(s[j + (o + 2)]) == LowerAscii(w[o + 2]);
    }
  }

  /** Inside a phrase match, past `from`, no position is the lead of a hadith match. */
  lemma {:induction false} PhraseInterior(s: string, j: nat, words: seq<string>, from: nat, i: nat)
    requires j <= |s| && |words| > 0 && PhraseEnd(s, j, words).Some? && WordsClear(words, from)
    requires j + from <= i < PhraseEnd(s, j, words).value
    ensures !Lead(HadithPattern, s, i)
    decreases |words|
  {
    var a := j + |words[0]|;
    if i < a {
      WordInterior(s, j, words[0], from, i);
    } else {
      PhraseEndStep(s, j, words);
      var b := RunEnd(s, a, Space);
      if i < b {
        assert InClass(Space, s[i]);
      } else {
        WordsClearTail(words, from);
        PhraseInterior(s, b, words[1..], 0, i);
      }
    }
  }

  /** No position inside a hadith match after its first character is the lead of another. */
  lemma HadithInterior(s: string, j: nat, i: nat)
    requires j < i <= |s| && HadithFrom(s, j, 0).Some? && i < MatchEnd(HadithFrom(s, j, 0).value)
    ensures !Lead(HadithPattern, s, i)
  {
    var k := HadithFrom(s, j, 0).value.collectionIndex;
    CollectionsClear(k);
    PhraseCitationInterior(s, j, k, Collection(k), i);
  }

  /** Inside a phrase citation, past its first character, no position is the lead of a hadith match. */
  lemma PhraseCitationInterior(s: string, j: nat, k: nat, words: seq<string>, i: nat)
    requires j <= |s| && |words| > 0 && WordsClear(words, 1) && PhraseCitation(s, j, k, words).Some?
    requires j < i < MatchEnd(PhraseCitation(s, j, k, words).value)
    ensures !Lead(HadithPattern, s, i)
  {
    PhraseCitationParts(s, j, k, words);
    var e := PhraseEnd(s, j, words).value;
    if i < e {
      PhraseInterior(s, j, words, 1, i);
    } else {
      NumbersFiller(s, e, i);
    }
  }

  /** Matches of one pattern never overlap: a match before `i` ends by `i` when another starts there. */
  lemma NoOverlap(p: Pattern, s: string, j: nat, i: nat)
    requires j < i <= |s| && MatchAt(p, s, j).Some? && MatchAt(p, s, i).Some?
    ensures MatchEnd(MatchAt(p, s, j).value) <= i
  {
    MatchLead(p, s, i);
    if MatchEnd(MatchAt(p, s, j).value) > i {
      match p
      case QuranPattern => QuranInterior(s, j, i);
      case HadithPattern => HadithInterior(s, j, i);
    }
  }

  /** The first source an `exec` loop sees is that of the match `exec` finds. */
  lemma SourcesFromHead(p: Pattern, s: string, from: nat)
    requires from <= |s| && Find(p, s, from).Some?
    ensures var i := Find(p, s, from).value.start;
      i <= |s| && SourceAt(p, s, i).Some? && SourceAt(p, s, i).value in SourcesFrom(p, s, from)
  {
    SourcesFromStep(p, s, from);
    var xs := SourcesFrom(p, s, from);
    assert xs[0] == SourceOf(Find(p, s, from).value);
  }

  /** The sources seen after the first match are seen from `from` as well. */
  lemma SourcesFromTail(p: Pattern, s: string, from: nat, x: MessageSource)
    requires from <= |s| && Find(p, s, from).Some?
    requires x in SourcesFrom(p, s, MatchEnd(Find(p, s, from).value))
    ensures x in SourcesFrom(p, s, from)
  {
    SourcesFromStep(p, s, from);
  }

  /** The `exec` loop visits every match from its `lastIndex` on: none found earlier runs past it. */
  lemma {:induction false} MatchVisited(p: Pattern, s: string, from: nat, i: nat)
    requires from <= i <= |s| && MatchAt(p, s, i).Some?
    ensures SourceAt(p, s, i).Some? && SourceAt(p, s, i).value in SourcesFrom(p, s, from)
    decreases i - from
  {
    FindComplete(p, s, from, i);
    var c := Find(p, s, from).value;
    assert MatchAt(p, s, c.start) == Some(c);
    var next := MatchEnd(c);
    assert from < next;
    if c.start < i {
      NoOverlap(p, s, c.start, i);
      assert next <= i;
      MatchVisited(p, s, next, i);
      SourcesFromTail(p, s, from, SourceAt(p, s, i).value);
      assert SourceAt(p, s, i).value in SourcesFrom(p, s, from);
    } else {
      assert c.start == i;
      SourcesFromHead(p, s, from);
      assert SourceAt(p, s, i).value in SourcesFrom(p, s, from);
    }
  }

  /** Numbers whose second run is not followed by a digit are exactly what `\s+(\d+):(\d+)` captures. */
  lemma NumbersAtExact(s: string, a: nat, n: Numbers)
    requires a <= |s| && NumbersShaped(n) && OccursAt(s, a, NumbersText(n))
    requires var f := a + |NumbersText(n)|; f == |s| || !IsAsciiDigit(s[f])
    ensures NumbersAt(s, a) == Some(n)
  {
    var b := a + |n.spacing|;
    var c := b + |n.first|;
    var f := c + 1 + |n.second|;
    assert |NumbersText(n)| == f - a;
    NumbersRuns(s, a, n);
    var spacing, first, second := s[a..b], s[b..c], s[c + 1..f];
    assert spacing == n.spacing && first == n.first && second == n.second;
    assert AllDigits(second);
    SecondRunEnds(s, c + 1, f);
    NumbersAtRuns(s, a, b, c, f);
    assert Numbers(spacing, first, second) == n;
  }

  /** `NumbersAt` once its three runs are known. */
  lemma NumbersAtRuns(s: string, a: nat, b: nat, c: nat, d: nat)
    requires a <= |s| && b == RunEnd(s, a, Space) && c == RunEnd(s, b, Digit)
    requires a < b < c < |s| && s[c] == ':' && d == RunEnd(s, c + 1, Digit) && c + 1 < d
    ensures NumbersAt(s, a) == Some(Numbers(s[a..b], s[b..c], s[c + 1..d]))
  {
  }

  /** A digit run followed by no digit ends there. */
  lemma SecondRunEnds(s: string, c: nat, f: nat)
    requires c <= f <= |s| && AllDigits(s[c..f]) && (f == |s| || !IsAsciiDigit(s[f]))
    ensures RunEnd(s, c, Digit) == f
  {
    forall q | c <= q < f ensures InClass(Digit, s[q]) {
      assert s[q] == s[c..f][q - c];
    }
    RunEndUnique(s, c, Digit, f);
  }

  /** The letters that tell the collection names apart: the second of the first word, the first two of the second. */
  function Signature(words: seq<string>): (char, char, char)
    requires |words| > 1 && |words[0]| > 1 && |words[1]| > 1
  {
    (LowerAscii(words[0][1]), LowerAscii(words[1][0]), LowerAscii(words[1][1]))
  }

  /** The signatures, written out. */
  lemma SignatureTable(k: nat)
    requires k < CollectionCount
    ensures |Collection(k)| > 1 && |Collection(k)[0]| > 1 && |Collection(k)[1]| > 1
    ensures Signature(Collection(k)) == [('a', 'b', 'u'), ('a', 'm', 'u'), ('u', 'a', 'b'), ('u', 'a', 't'), ('u', 'a', 'n'), ('u', 'i', 'b')][k]
  {
  }

  lemma SignaturesDistinct(k1: nat, k2: nat)
    requires k1 < CollectionCount && k2 < CollectionCount
    requires |Collection(k1)| > 1 && |Collection(k1)[0]| > 1 && |Collection(k1)[1]| > 1
    requires |Collection(k2)| > 1 && |Collection(k2)[0]| > 1 && |Collection(k2)[1]| > 1
    requires Signature(Collection(k1)) == Signature(Collection(k2))
    ensures k1 == k2
  {
    SignatureTable(k1);
    SignatureTable(k2);
  }

  /** Every collection name has at least two words, a first word of five letters and a second of two or more. */
  lemma CollectionShape(k: nat)
    requires k < CollectionCount
    ensures |Collection(k)| > 1 && |Collection(k)[0]| == 5 && |Collection(k)[1]| > 1
  {
  }

  /** Where a phrase of two or more words matches, its first word's second letter and its second word's first two letters are there. */
  lemma PhraseSignature(s: string, i: nat, words: seq<string>)
    requires i <= |s| && |words| > 1 && |words[0]| > 1 && |words[1]| > 1 && PhraseEnd(s, i, words).Some?
    ensures var b := RunEnd(s, i + |words[0]|, Space);
      i + 1 < |s| && b + 1 < |s| && Signature(words) == (LowerAscii(s[i + 1]), LowerAscii(s[b]), LowerAscii(s[b + 1]))
  {
    PhraseEndStep(s, i, words);
    var b := RunEnd(s, i + |words[0]|, Space);
    assert words[1..][0] == words[1];
    MatchedChars(s, i, words[0]);
    MatchedChars(s, b, words[1]);
    assert LowerAscii(s[i + 1]) == LowerAscii(words[0][1]);
    assert LowerAscii(s[b + 0]) == LowerAscii(words[1][0]);
    assert LowerAscii(s[b + 1]) == LowerAscii(words[1][1]);
  }

  /** Where alternative `k` matches, its phrase does, and the phrase has the shape a signature needs. */
  lemma AlternativePhrase(s: string, i: nat, k: nat)
    requires i <= |s| && k < CollectionCount && AlternativeAt(s, i, k).Some?
    ensures |Collection(k)| > 1 && |Collection(k)[0]| == 5 && |Collection(k)[1]| > 1
    ensures PhraseEnd(s, i, Collection(k)).Some?
  {
    CollectionShape(k);
    PhraseCitationParts(s, i, k, Collection(k));
  }

  /** At most one collection name matches at a position: the text shows one signature. */
  lemma AlternativesExclusive(s: string, i: nat, k1: nat, k2: nat)
    requires i <= |s| && k1 < CollectionCount && k2 < CollectionCount
    requires AlternativeAt(s, i, k1).Some? && AlternativeAt(s, i, k2).Some?
    ensures k1 == k2
  {
    AlternativePhrase(s, i, k1);
    AlternativePhrase(s, i, k2);
    PhrasesShareSignature(s, i, Collection(k1), Collection(k2));
    SignaturesDistinct(k1, k2);
  }

  /** Two phrases that match at one position, with first words of one length, have one signature. */
  lemma PhrasesShareSignature(s: string, i: nat, w1: seq<string>, w2: seq<string>)
    requires i <= |s| && |w1| > 1 && |w1[0]| > 1 && |w1[1]| > 1 && |w2| > 1 && |w2[1]| > 1 && |w2[0]| == |w1[0]|
    requires PhraseEnd(s, i, w1).Some? && PhraseEnd(s, i, w2).Some?
    ensures Signature(w1) == Signature(w2)
  {
    PhraseSignature(s, i, w1);
    PhraseSignature(s, i, w2);
  }

  /** A Quran citation `Quran c:v`, with or without a range end, is extracted under the reference `Quran c:v`. */
  lemma QuranCitationReferenced(s: string, i: nat, n: Numbers)
    requires i <= |s| && MatchesAt(s, i, "Quran") && NumbersShaped(n) && OccursAt(s, i + 5, NumbersText(n))
    requires var f := i + 5 + |NumbersText(n)|; f == |s| || !IsAsciiDigit(s[f])
    ensures var x := MessageSource(Quran, "Quran " + n.first + ":" + n.second, "", QuranMeta(DigitsValue(n.first), DigitsValue(n.second)));
      exists k :: 0 <= k < |ExtractedSources(s)| && ExtractedSources(s)[k] == x
  {
    NumbersAtExact(s, i + 5, n);
    assert QuranAt(s, i).value.numbers == n;
    MatchVisited(QuranPattern, s, 0, i);
    var x := SourceAt(QuranPattern, s, i).value;
    assert x in SeenSources(s);
    ExtractedSourcesComplete(s);
  }

  /** A hadith citation is extracted under its collection name as written and `b:h`, with the collection's canonical slug. */
  lemma HadithCitationReferenced(s: string, i: nat, k: nat, gaps: seq<nat>, e: nat, n: Numbers)
    requires i <= |s| && k < CollectionCount && PhraseSpelt(s, i, Collection(k), gaps, e)
    requires NumbersShaped(n) && OccursAt(s, e, NumbersText(n))
    requires var f := e + |NumbersText(n)|; f == |s| || !IsAsciiDigit(s[f])
    ensures var x := MessageSource(Hadith, s[i..e] + " " + n.first + ":" + n.second, "", HadithMeta(CanonicalSlug(k), n.first, n.second));
      exists j :: 0 <= j < |ExtractedSources(s)| && ExtractedSources(s)[j] == x
  {
    CollectionsArePlain(k);
    PhraseEndComplete(s, i, Collection(k), gaps, e);
    NumbersAtExact(s, e, n);
    var c := HadithCitation(i, k, s[i..e], n);
    assert AlternativeAt(s, i, k) == Some(c);
    AlternativeSound(s, i, k);
    HadithAtComplete(s, i, k, gaps, e, n);
    AlternativesExclusive(s, i, HadithFrom(s, i, 0).value.collectionIndex, k);
    assert MatchAt(HadithPattern, s, i) == Some(c);
    MatchVisited(HadithPattern, s, 0, i);
    var x := SourceAt(HadithPattern, s, i).value;
    assert x in SeenSources(s);
    ExtractedSourcesComplete(s);
  }
}
