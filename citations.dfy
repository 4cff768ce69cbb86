/**
 * `extractSources` of src/features/chat/service/chat.service.ts: scanning an
 * assistant reply for Quran citations (`/Quran\s+(\d+):(\d+)(?:-(\d+))?/gi`)
 * and then for hadith citations (six collection names, each followed by
 * `\s+(\d+):(\d+)`), keeping the first citation of each reference string.
 *
 * A regular expression match is a record of its groups as written in the
 * text. `QuranAt` and `HadithFrom` decide what an expression matches at one
 * position, `Find` is one `exec` call (the leftmost match at or after
 * `lastIndex`), and `SourcesFrom` lists the sources of the successive
 * non-overlapping matches an `exec` loop sees. `ExtractedSources` is the
 * specification the method `ExtractSources` is proved against.
 */
module ChatSources {
  import opened Wrappers
  import opened Text

  datatype SourceKind = Quran | Hadith

  datatype Metadata =
    | QuranMeta(chapterId: nat, verseNumber: nat)
    | HadithMeta(collectionName: string, bookNumber: string, hadithNumber: string)

  /** `MessageSource` of src/features/chat/type/chat.type.ts. */
  datatype MessageSource = MessageSource(kind: SourceKind, reference: string, text: string, metadata: Metadata)

  // ------------------------------------------------------------- scanning

  datatype CharClass = Space | Digit

  predicate InClass(k: CharClass, c: char) {
    match k
    case Space => IsJsWhitespace(c)
    case Digit => IsAsciiDigit(c)
  }

  /** The end of the longest run of class `k` starting at `i`: what a greedy `\s+` or `\d+` consumes. */
  function RunEnd(s: string, i: nat, k: CharClass): (r: nat)
    requires i <= |s|
    ensures i <= r <= |s|
    ensures forall j {:trigger InClass(k, s[j])} :: i <= j < r ==> InClass(k, s[j])
    ensures r == |s| || !InClass(k, s[r])
    decreases |s| - i
  {
    if i == |s| || !InClass(k, s[i]) then i else RunEnd(s, i + 1, k)
  }

  /** A run is determined by where it starts. */
  lemma RunEndUnique(s: string, i: nat, k: CharClass, e: nat)
    requires i <= e <= |s|
    requires forall j :: i <= j < e ==> InClass(k, s[j])
    requires e == |s| || !InClass(k, s[e])
    ensures RunEnd(s, i, k) == e
  {
  }

  predicate CaseInsensitiveEqual(a: string, b: string) {
    |a| == |b| && forall k {:trigger LowerAscii(a[k])} :: 0 <= k < |a| ==> LowerAscii(a[k]) == LowerAscii(b[k])
  }

  /** The literal `w` under the `i` flag at position `i`. */
  predicate MatchesAt(s: string, i: nat, w: string) {
    i + |w| <= |s| && CaseInsensitiveEqual(s[i..i + |w|], w)
  }

  predicate OccursAt(s: string, i: nat, t: string) {
    i + |t| <= |s| && s[i..i + |t|] == t
  }

  /** The groups of `\s+(\d+):(\d+)` as written: the spacing and the two numbers. */
  datatype Numbers = Numbers(spacing: string, first: string, second: string)

  function NumbersText(n: Numbers): string {
    n.spacing + n.first + ":" + n.second
  }

  predicate NumbersShaped(n: Numbers) {
    |n.spacing| > 0 && AllWhitespace(n.spacing) &&
    |n.first| > 0 && AllDigits(n.first) &&
    |n.second| > 0 && AllDigits(n.second)
  }

  /** `\s+(\d+):(\d+)` at position `a`, greedy. */
  function NumbersAt(s: string, a: nat): (r: Option<Numbers>)
    requires a <= |s|
    ensures r.Some? ==> var e := a + |NumbersText(r.value)|; e <= |s| && (e == |s| || !IsAsciiDigit(s[e]))
  {
    var b := RunEnd(s, a, Space);
    var c := RunEnd(s, b, Digit);
    if b == a || c == b || c == |s| || s[c] != ':' then None
    else
      var d := RunEnd(s, c + 1, Digit);
      if d == c + 1 then None
      else Some(Numbers(s[a..b], s[b..c], s[c + 1..d]))
  }

  /** What `NumbersAt` finds is a spaced pair of numbers, and it is in the text there. */
  lemma NumbersAtSound(s: string, a: nat)
    requires a <= |s| && NumbersAt(s, a).Some?
    ensures NumbersShaped(NumbersAt(s, a).value) && OccursAt(s, a, NumbersText(NumbersAt(s, a).value))
  {
    var b := RunEnd(s, a, Space);
    var c := RunEnd(s, b, Digit);
    var d := RunEnd(s, c + 1, Digit);
    var n := Numbers(s[a..b], s[b..c], s[c + 1..d]);
    assert NumbersAt(s, a) == Some(n);
    RunSlice(s, a, Space);
    RunSlice(s, b, Digit);
    RunSlice(s, c + 1, Digit);
    NumbersSlices(s, a, b, c, d);
  }

  /** The text of three groups around a `:` is the slices it is cut into. */
  lemma NumbersSlices(s: string, a: nat, b: nat, c: nat, d: nat)
    requires a <= b <= c < d <= |s| && s[c] == ':'
    ensures s[a..d] == s[a..b] + s[b..c] + ":" + s[c + 1..d]
  {
    assert s[a..d] == s[a..b] + s[b..d];
    assert s[b..d] == s[b..c] + s[c..d];
    assert s[c..d] == [s[c]] + s[c + 1..d];
  }

  /** The characters of a run all belong to its class. */
  lemma RunSlice(s: string, i: nat, k: CharClass)
    requires i <= |s|
    ensures k == Space ==> AllWhitespace(s[i..RunEnd(s, i, k)])
    ensures k == Digit ==> AllDigits(s[i..RunEnd(s, i, k)])
  {
    var r := RunEnd(s, i, k);
    forall j | 0 <= j < |s[i..r]| ensures InClass(k, s[i..r][j]) {
      assert s[i..r][j] == s[i + j];
    }
  }

  lemma OccursSplit(s: string, i: nat, a: string, b: string)
    requires OccursAt(s, i, a + b)
    ensures OccursAt(s, i, a) && OccursAt(s, i + |a|, b)
  {
    assert s[i..i + |a|] == (a + b)[..|a|];
    assert s[i + |a|..i + |a| + |b|] == (a + b)[|a|..];
  }

  lemma OccursChars(s: string, i: nat, t: string)
    requires OccursAt(s, i, t)
    ensures forall j :: i <= j < i + |t| ==> s[j] == t[j - i]
  {
    forall j | i <= j < i + |t| ensures s[j] == t[j - i] {
      assert s[i..i + |t|][j - i] == s[j];
    }
  }

  /** The spacing, the first number, the colon and the second number, one after the other. */
  lemma NumbersLayout(s: string, a: nat, n: Numbers)
    requires OccursAt(s, a, NumbersText(n))
    ensures OccursAt(s, a, n.spacing) && OccursAt(s, a + |n.spacing|, n.first)
    ensures OccursAt(s, a + |n.spacing| + |n.first|, ":") && OccursAt(s, a + |n.spacing| + |n.first| + 1, n.second)
  {
    OccursSplit(s, a, n.spacing + n.first + ":", n.second);
    OccursSplit(s, a, n.spacing + n.first, ":");
    OccursSplit(s, a, n.spacing, n.first);
  }

  /** Where the greedy runs of `\s+(\d+):(\d+)` end on a spaced pair of numbers. */
  lemma NumbersRuns(s: string, a: nat, n: Numbers)
    requires a <= |s| && NumbersShaped(n) && OccursAt(s, a, NumbersText(n))
    ensures var b := a + |n.spacing|; var c := b + |n.first|;
      RunEnd(s, a, Space) == b && RunEnd(s, b, Digit) == c && c < |s| && s[c] == ':' &&
      c + 1 + |n.second| <= RunEnd(s, c + 1, Digit) &&
      s[a..b] == n.spacing && s[b..c] == n.first && s[c + 1..c + 1 + |n.second|] == n.second
  {
    var b, c := a + |n.spacing|, a + |n.spacing| + |n.first|;
    NumbersLayout(s, a, n);
    OccursChars(s, a, n.spacing);
    OccursChars(s, b, n.first);
    OccursChars(s, c, ":");
    OccursChars(s, c + 1, n.second);
    assert !IsJsWhitespace(s[b]) by { assert s[b] == n.first[0]; }
    RunEndUnique(s, a, Space, b);
    assert !IsAsciiDigit(s[c]);
    RunEndUnique(s, b, Digit, c);
  }

  /** The groups `NumbersAt` records once the spacing and the first number are found and a second number follows. */
  lemma NumbersAtFound(s: string, a: nat, b: nat, c: nat, m: string)
    requires a <= |s| && b == RunEnd(s, a, Space) && c == RunEnd(s, b, Digit)
    requires a < b < c < |s| && s[c] == ':'
    requires |m| > 0 && c + 1 + |m| <= RunEnd(s, c + 1, Digit) && s[c + 1..c + 1 + |m|] == m
    ensures NumbersAt(s, a).Some?
    ensures NumbersAt(s, a).value.spacing == s[a..b] && NumbersAt(s, a).value.first == s[b..c]
    ensures |NumbersAt(s, a).value.second| >= |m| && NumbersAt(s, a).value.second[..|m|] == m
  {
    var d := RunEnd(s, c + 1, Digit);
    assert NumbersAt(s, a) == Some(Numbers(s[a..b], s[b..c], s[c + 1..d]));
    SlicePrefix(s, c + 1, d, |m|);
  }

  /** Any spaced pair of numbers at `a` is found, with the same spacing and first number and a second number at least as long. */
  lemma NumbersAtComplete(s: string, a: nat, n: Numbers)
    requires a <= |s| && NumbersShaped(n) && OccursAt(s, a, NumbersText(n))
    ensures NumbersAt(s, a).Some?
    ensures NumbersAt(s, a).value.spacing == n.spacing && NumbersAt(s, a).value.first == n.first
    ensures |NumbersAt(s, a).value.second| >= |n.second|
    ensures NumbersAt(s, a).value.second[..|n.second|] == n.second
  {
    NumbersRuns(s, a, n);
    NumbersAtFound(s, a, a + |n.spacing|, a + |n.spacing| + |n.first|, n.second);
  }

  lemma SlicePrefix(s: string, i: nat, j: nat, m: nat)
    requires i + m <= j <= |s|
    ensures s[i..j][..m] == s[i..i + m]
  {
  }

  // --------------------------------------------------------------- matches

  /** A match of either expression, recorded by its groups as written. */
  datatype Citation =
    | QuranCitation(start: nat, word: string, numbers: Numbers, rangeEnd: Option<string>)
    | HadithCitation(start: nat, collectionIndex: nat, collection: string, numbers: Numbers)

  /** `match[0]`. */
  function MatchText(c: Citation): string {
    match c
    case QuranCitation(_, word, numbers, rangeEnd) =>
      word + NumbersText(numbers) + (if rangeEnd.Some? then "-" + rangeEnd.value else "")
    case HadithCitation(_, _, collection, numbers) => collection + NumbersText(numbers)
  }

  /** Where the next search starts: `lastIndex` after the match. */
  function MatchEnd(c: Citation): nat {
    c.start + |MatchText(c)|
  }

  /** How many collection names the hadith expression tries. */
  const CollectionCount := 6

  /** Alternative `k` of the hadith expression, word by word; alternatives are tried in the order of `k`. */
  function Collection(k: nat): (words: seq<string>)
    requires k < CollectionCount
    ensures |words| > 0
  {
    if k == 0 then ["Sahih", "Bukhari"]
    else if k == 1 then ["Sahih", "Muslim"]
    else if k == 2 then ["Sunan", "Abi", "Dawud"]
    else if k == 3 then ["Sunan", "At-Tirmidhi"]
    else if k == 4 then ["Sunan", "An-Nasa'i"]
    else ["Sunan", "Ibn", "Majah"]
  }

  function LowerString(w: string): (r: string)
    ensures |r| == |w| && forall k :: 0 <= k < |w| ==> r[k] == LowerAscii(w[k])
  {
    seq(|w|, k requires 0 <= k < |w| => LowerAscii(w[k]))
  }

  function LowerWords(words: seq<string>): (r: seq<string>)
    ensures |r| == |words| && forall j :: 0 <= j < |words| ==> r[j] == LowerString(words[j])
  {
    seq(|words|, j requires 0 <= j < |words| => LowerString(words[j]))
  }

  /** The `collectionName` every spelling of collection `k` maps to: its words lower-cased, joined by `-`. */
  function CanonicalSlug(k: nat): string
    requires k < CollectionCount
  {
    Join(LowerWords(Collection(k)), "-")
  }

  /** `name.toLowerCase().replace(/\s+/g, '-')` on the text of a collection name. */
  function Slug(t: string): (r: string)
    ensures |r| <= |t|
    ensures forall k :: 0 <= k < |r| ==> !IsJsWhitespace(r[k])
    decreases |t|
  {
    if |t| == 0 then ""
    else if IsJsWhitespace(t[0]) then
      var e := RunEnd(t, 0, Space);
      assert e > 0;
      "-" + Slug(t[e..])
    else [LowerAscii(t[0])] + Slug(t[1..])
  }

  predicate QuranShaped(c: Citation)
    requires c.QuranCitation?
  {
    CaseInsensitiveEqual(c.word, "Quran") && NumbersShaped(c.numbers) &&
    (c.rangeEnd.Some? ==> |c.rangeEnd.value| > 0 && AllDigits(c.rangeEnd.value))
  }

  predicate HadithShaped(c: Citation)
    requires c.HadithCitation?
  {
    c.collectionIndex < CollectionCount && |c.collection| > 0 &&
    LowerAscii(c.collection[0]) == 's' &&
    Slug(c.collection) == CanonicalSlug(c.collectionIndex) &&
    NumbersShaped(c.numbers)
  }

  predicate Shaped(c: Citation) {
    if c.QuranCitation? then QuranShaped(c) else HadithShaped(c)
  }

  /** The optional `(?:-(\d+))?` at position `e`: the digits of the range end, when a `-` and a digit follow. */
  function RangeAt(s: string, e: nat): (r: Option<string>)
    requires e <= |s|
    ensures r.Some? ==> |r.value| > 0 && AllDigits(r.value) && OccursAt(s, e, "-" + r.value)
    ensures r.Some? ==> var f := e + 1 + |r.value|; f == |s| || !IsAsciiDigit(s[f])
    ensures r.None? ==> !(e + 1 < |s| && s[e] == '-' && IsAsciiDigit(s[e + 1]))
  {
    if e < |s| && s[e] == '-' && RunEnd(s, e + 1, Digit) > e + 1 then
      var f := RunEnd(s, e + 1, Digit);
      assert s[e..f] == "-" + s[e + 1..f];
      RunSlice(s, e + 1, Digit);
      Some(s[e + 1..f])
    else None
  }

  /** What `/Quran\s+(\d+):(\d+)(?:-(\d+))?/i` matches at position `i`. */
  function QuranAt(s: string, i: nat): (r: Option<Citation>)
    requires i <= |s|
    ensures r.Some? ==> r.value.QuranCitation? && r.value.start == i && i < MatchEnd(r.value) <= |s|
  {
    if !MatchesAt(s, i, "Quran") then None else QuranFrom(s, i, i + 5)
  }

  /** The rest of a Quran match once the word `Quran` ends at `a`. */
  function QuranFrom(s: string, i: nat, a: nat): (r: Option<Citation>)
    requires i <= a <= |s|
    ensures r.Some? ==> r.value.QuranCitation? && r.value.start == i && a < MatchEnd(r.value) <= |s|
  {
    match NumbersAt(s, a)
    case None => None
    case Some(n) => Some(QuranCitation(i, s[i..a], n, RangeAt(s, a + |NumbersText(n)|)))
  }

  /** A Quran match: the word, then the numbers, then the optional range end. */
  lemma QuranAtParts(s: string, i: nat)
    requires i <= |s| && QuranAt(s, i).Some?
    ensures MatchesAt(s, i, "Quran") && QuranAt(s, i) == QuranFrom(s, i, i + 5)
  {
  }

  lemma QuranFromParts(s: string, i: nat, a: nat)
    requires i <= a <= |s| && QuranFrom(s, i, a).Some?
    ensures NumbersAt(s, a).Some?
    ensures var n := NumbersAt(s, a).value;
      QuranFrom(s, i, a) == Some(QuranCitation(i, s[i..a], n, RangeAt(s, a + |NumbersText(n)|)))
  {
  }

  lemma QuranAtSound(s: string, i: nat)
    requires i <= |s| && QuranAt(s, i).Some?
    ensures QuranShaped(QuranAt(s, i).value)
  {
    QuranAtParts(s, i);
    QuranFromParts(s, i, i + 5);
    NumbersAtSound(s, i + 5);
  }

  lemma QuranAtOccurs(s: string, i: nat)
    requires i <= |s| && QuranAt(s, i).Some?
    ensures OccursAt(s, i, MatchText(QuranAt(s, i).value))
  {
    QuranAtParts(s, i);
    QuranFromOccurs(s, i, i + 5);
  }

  /** The word, the numbers after it and the range end after them make up the match text. */
  lemma QuranFromOccurs(s: string, i: nat, a: nat)
    requires i <= a <= |s| && QuranFrom(s, i, a).Some?
    ensures OccursAt(s, i, MatchText(QuranFrom(s, i, a).value))
  {
    QuranFromParts(s, i, a);
    NumbersAtSound(s, a);
    var c := QuranFrom(s, i, a).value;
    var range := c.rangeEnd;
    OccursThree(s, i, s[i..a], NumbersText(c.numbers), if range.Some? then "-" + range.value else "");
  }

  lemma OccursThree(s: string, i: nat, a: string, b: string, c: string)
    requires OccursAt(s, i, a) && OccursAt(s, i + |a|, b) && OccursAt(s, i + |a| + |b|, c)
    ensures OccursAt(s, i, a + b + c)
  {
    assert s[i..i + |a| + |b| + |c|] == s[i..i + |a|] + s[i + |a|..i + |a| + |b|] + s[i + |a| + |b|..i + |a| + |b| + |c|];
  }

  lemma OccursTwo(s: string, i: nat, a: string, b: string)
    requires OccursAt(s, i, a) && OccursAt(s, i + |a|, b)
    ensures OccursAt(s, i, a + b)
  {
    assert s[i..i + |a| + |b|] == s[i..i + |a|] + s[i + |a|..i + |a| + |b|];
  }

  // ---------------------------------------------------------------- hadith

  /** The end of a phrase: its first word, then each further word after `\s+`, all case-insensitively. */
  function PhraseEnd(s: string, i: nat, words: seq<string>): (r: Option<nat>)
    requires i <= |s| && |words| > 0
    ensures r.Some? ==> i + |words[0]| <= r.value <= |s| && MatchesAt(s, i, words[0])
    decreases |words|
  {
    if !MatchesAt(s, i, words[0]) then None
    else if |words| == 1 then Some(i + |words[0]|)
    else
      var b := RunEnd(s, i + |words[0]|, Space);
      if b == i + |words[0]| then None else PhraseEnd(s, b, words[1..])
  }

  predicate PlainWords(words: seq<string>) {
    forall j :: 0 <= j < |words| ==>
      |words[j]| > 0 && forall k :: 0 <= k < |words[j]| ==> !IsJsWhitespace(words[j][k])
  }

  /** Every collection name is made of words without whitespace, and starts with `S`. */
  lemma CollectionsArePlain(k: nat)
    requires k < CollectionCount
    ensures PlainWords(Collection(k)) && Collection(k)[0][0] == 'S'
  {
  }

  /** Lower-casing a word without whitespace, then the rest. */
  lemma {:induction false} SlugWord(w: string, u: string)
    requires forall k :: 0 <= k < |w| ==> !IsJsWhitespace(w[k])
    ensures Slug(w + u) == LowerString(w) + Slug(u)
    decreases |w|
  {
    if |w| == 0 {
      assert w + u == u;
    } else {
      assert (w + u)[1..] == w[1..] + u;
      SlugWord(w[1..], u);
      assert LowerString(w) == [LowerAscii(w[0])] + LowerString(w[1..]);
    }
  }

  /** A whitespace run before a non-space becomes one `-`. */
  lemma SlugSpace(sp: string, u: string)
    requires |sp| > 0 && AllWhitespace(sp)
    requires |u| == 0 || !IsJsWhitespace(u[0])
    ensures Slug(sp + u) == "-" + Slug(u)
  {
    var t := sp + u;
    RunEndUnique(t, 0, Space, |sp|);
    assert t[|sp|..] == u;
  }

  /** Text that matches a word case-insensitively, where the word has no whitespace. */
  lemma MatchedWord(t: string, w: string)
    requires CaseInsensitiveEqual(t, w)
    requires forall k :: 0 <= k < |w| ==> !IsJsWhitespace(w[k])
    ensures forall k :: 0 <= k < |t| ==> !IsJsWhitespace(t[k])
    ensures LowerString(t) == LowerString(w)
  {
  }

  /** A word, a whitespace run, then the rest of a phrase starting with a non-space. */
  lemma SpacedWordSlug(s: string, i: nat, a: nat, b: nat, e: nat, w: string)
    requires i <= a < b < e <= |s| && a == i + |w|
    requires CaseInsensitiveEqual(s[i..a], w) && forall k :: 0 <= k < |w| ==> !IsJsWhitespace(w[k])
    requires AllWhitespace(s[a..b])
    requires !IsJsWhitespace(s[b])
    ensures Slug(s[i..e]) == LowerString(w) + "-" + Slug(s[b..e])
  {
    var t := s[i..a];
    MatchedWord(t, w);
    assert s[b..e][0] == s[b];
    SlugSpace(s[a..b], s[b..e]);
    assert s[i..e] == t + (s[a..b] + s[b..e]);
    SlugWord(t, s[a..b] + s[b..e]);
  }

  /** A phrase of several words: the first word, a whitespace run, and the rest of the phrase. */
  lemma PhraseEndStep(s: string, i: nat, words: seq<string>)
    requires i <= |s| && |words| > 1 && PhraseEnd(s, i, words).Some?
    ensures var b := RunEnd(s, i + |words[0]|, Space);
      MatchesAt(s, i, words[0]) && i + |words[0]| < b &&
      PhraseEnd(s, b, words[1..]).Some? && PhraseEnd(s, i, words) == PhraseEnd(s, b, words[1..])
  {
  }

  lemma PlainWordsTail(words: seq<string>)
    requires |words| > 0 && PlainWords(words)
    ensures PlainWords(words[1..])
  {
    forall j | 0 <= j < |words[1..]| ensures |words[1..][j]| > 0 {
      assert words[1..][j] == words[j + 1];
    }
  }

  lemma JoinLowerWords(words: seq<string>)
    requires |words| > 1
    ensures Join(LowerWords(words), "-") == LowerString(words[0]) + "-" + Join(LowerWords(words[1..]), "-")
  {
    var lw := LowerWords(words);
    assert lw[1..] == LowerWords(words[1..]);
  }

  /** A phrase match starts with a character that is not whitespace. */
  lemma PhraseStartsPlain(s: string, b: nat, w: string)
    requires |w| > 0 && forall k :: 0 <= k < |w| ==> !IsJsWhitespace(w[k])
    requires MatchesAt(s, b, w)
    ensures b < |s| && !IsJsWhitespace(s[b])
  {
    assert s[b] == s[b..b + |w|][0];
    MatchedWord(s[b..b + |w|], w);
  }

  /** However a collection name is spelt and spaced, its slug is the lower-cased words joined by `-`. */
  lemma {:induction false} PhraseSlug(s: string, i: nat, words: seq<string>)
    requires i <= |s| && |words| > 0 && PlainWords(words)
    requires PhraseEnd(s, i, words).Some?
    ensures Slug(s[i..PhraseEnd(s, i, words).value]) == Join(LowerWords(words), "-")
    decreases |words|
  {
    var w := words[0];
    var a := i + |w|;
    if |words| == 1 {
      MatchedWord(s[i..a], w);
      SlugWord(s[i..a], "");
      assert s[i..a] + "" == s[i..a];
    } else {
      PhraseEndStep(s, i, words);
      var b := RunEnd(s, a, Space);
      var e := PhraseEnd(s, b, words[1..]).value;
      PlainWordsTail(words);
      PhraseSlug(s, b, words[1..]);
      PhraseStartsPlain(s, b, words[1]);
      RunSlice(s, a, Space);
      SpacedWordSlug(s, i, a, b, e, w);
      JoinLowerWords(words);
    }
  }

  /** The phrase `words` at position `i`, followed by `\s+(\d+):(\d+)`, recorded as alternative `k`. */
  function PhraseCitation(s: string, i: nat, k: nat, words: seq<string>): (r: Option<Citation>)
    requires i <= |s| && |words| > 0
    ensures r.Some? ==> r.value.HadithCitation? && r.value.start == i && r.value.collectionIndex == k
    ensures r.Some? ==> i < MatchEnd(r.value) <= |s|
  {
    match PhraseEnd(s, i, words)
    case None => None
    case Some(a) =>
      match NumbersAt(s, a)
      case None => None
      case Some(n) => Some(HadithCitation(i, k, s[i..a], n))
  }

  /** Alternative `k` of the hadith expression, followed by `\s+(\d+):(\d+)`, at position `i`. */
  function AlternativeAt(s: string, i: nat, k: nat): (r: Option<Citation>)
    requires i <= |s| && k < CollectionCount
    ensures r.Some? ==> r.value.HadithCitation? && r.value.start == i && r.value.collectionIndex == k
    ensures r.Some? ==> i < MatchEnd(r.value) <= |s|
  {
    PhraseCitation(s, i, k, Collection(k))
  }

  /** A phrase citation: the phrase, then the numbers right after it. */
  lemma PhraseCitationParts(s: string, i: nat, k: nat, words: seq<string>)
    requires i <= |s| && |words| > 0 && PhraseCitation(s, i, k, words).Some?
    ensures PhraseEnd(s, i, words).Some?
    ensures var a := PhraseEnd(s, i, words).value;
      NumbersAt(s, a).Some? && PhraseCitation(s, i, k, words) == Some(HadithCitation(i, k, s[i..a], NumbersAt(s, a).value))
  {
  }

  /** The collection text of a phrase citation slugs to the phrase's words, lower-cased and joined by `-`. */
  lemma PhraseCitationSound(s: string, i: nat, k: nat, words: seq<string>)
    requires i <= |s| && |words| > 0 && PlainWords(words) && PhraseCitation(s, i, k, words).Some?
    ensures var c := PhraseCitation(s, i, k, words).value;
      |c.collection| > 0 && LowerAscii(c.collection[0]) == LowerAscii(words[0][0]) &&
      Slug(c.collection) == Join(LowerWords(words), "-") && NumbersShaped(c.numbers)
  {
    PhraseCitationParts(s, i, k, words);
    var a := PhraseEnd(s, i, words).value;
    NumbersAtSound(s, a);
    PhraseSlug(s, i, words);
    assert s[i..a][0] == s[i..i + |words[0]|][0];
  }

  lemma PhraseCitationOccurs(s: string, i: nat, k: nat, words: seq<string>)
    requires i <= |s| && |words| > 0 && PhraseCitation(s, i, k, words).Some?
    ensures OccursAt(s, i, MatchText(PhraseCitation(s, i, k, words).value))
  {
    PhraseCitationParts(s, i, k, words);
    var a := PhraseEnd(s, i, words).value;
    NumbersAtSound(s, a);
    HadithCitationOccurs(s, i, a, k, NumbersAt(s, a).value);
  }

  /** The text between `i` and `a`, then numbers that end where no digit follows. */
  lemma HadithCitationOccurs(s: string, i: nat, a: nat, k: nat, n: Numbers)
    requires i <= a <= |s| && OccursAt(s, a, NumbersText(n))
    ensures OccursAt(s, i, MatchText(HadithCitation(i, k, s[i..a], n)))
  {
    var t := s[i..a];
    assert OccursAt(s, i, t) && i + |t| == a;
    OccursTwo(s, i, t, NumbersText(n));
  }

  lemma AlternativeSound(s: string, i: nat, k: nat)
    requires i <= |s| && k < CollectionCount && AlternativeAt(s, i, k).Some?
    ensures HadithShaped(AlternativeAt(s, i, k).value)
  {
    var words := Collection(k);
    CollectionsArePlain(k);
    PhraseCitationSound(s, i, k, words);
  }

  lemma AlternativeOccurs(s: string, i: nat, k: nat)
    requires i <= |s| && k < CollectionCount && AlternativeAt(s, i, k).Some?
    ensures OccursAt(s, i, MatchText(AlternativeAt(s, i, k).value))
  {
    PhraseCitationOccurs(s, i, k, Collection(k));
  }

  /** What each alternative of the hadith expression matches at `i`, in the order they are written. */
  function Alternatives(s: string, i: nat): (tries: seq<Option<Citation>>)
    requires i <= |s|
    ensures |tries| == CollectionCount
    ensures forall j :: 0 <= j < CollectionCount ==> tries[j] == AlternativeAt(s, i, j)
  {
    seq(CollectionCount, j requires 0 <= j < CollectionCount => AlternativeAt(s, i, j))
  }

  /** An alternation tries its branches left to right and takes the first that matches. */
  function FirstMatch(tries: seq<Option<Citation>>, k: nat): (r: Option<Citation>)
    requires k <= |tries|
    ensures r.Some? ==> exists j :: k <= j < |tries| && tries[j] == r && forall m :: k <= m < j ==> tries[m].None?
    ensures r.None? ==> forall j :: k <= j < |tries| ==> tries[j].None?
    decreases |tries| - k
  {
    if k == |tries| then None
    else if tries[k].Some? then tries[k]
    else FirstMatch(tries, k + 1)
  }

  /** What the hadith expression matches at `i`, trying alternatives `k` onwards in order. */
  function HadithFrom(s: string, i: nat, k: nat): (r: Option<Citation>)
    requires i <= |s| && k <= CollectionCount
    ensures r.Some? ==> r.value.HadithCitation? && r.value.start == i
    ensures r.Some? ==> k <= r.value.collectionIndex < CollectionCount && i < MatchEnd(r.value) <= |s|
    ensures r.Some? ==> AlternativeAt(s, i, r.value.collectionIndex) == r
    ensures r.Some? ==> forall j :: k <= j < r.value.collectionIndex ==> AlternativeAt(s, i, j).None?
    ensures r.None? ==> forall j :: k <= j < CollectionCount ==> AlternativeAt(s, i, j).None?
  {
    var tries := Alternatives(s, i);
    var r := FirstMatch(tries, k);
    if r.Some? then
      var j :| k <= j < |tries| && tries[j] == r && forall m :: k <= m < j ==> tries[m].None?;
      assert r.value.collectionIndex == j;
      r
    else r
  }

  // ------------------------------------------------------------------ exec

  datatype Pattern = QuranPattern | HadithPattern

  /** What a pattern matches at position `i`, if anything. */
  function MatchAt(p: Pattern, s: string, i: nat): (r: Option<Citation>)
    requires i <= |s|
    ensures r.Some? ==> r.value.start == i && (r.value.QuranCitation? <==> p.QuranPattern?)
    ensures r.Some? ==> i < MatchEnd(r.value) <= |s|
  {
    match p
    case QuranPattern => QuranAt(s, i)
    case HadithPattern => HadithFrom(s, i, 0)
  }

  /** A match is a well-formed citation. */
  lemma MatchAtSound(p: Pattern, s: string, i: nat)
    requires i <= |s| && MatchAt(p, s, i).Some?
    ensures Shaped(MatchAt(p, s, i).value)
  {
    match p
    case QuranPattern => QuranAtSound(s, i);
    case HadithPattern => AlternativeSound(s, i, HadithFrom(s, i, 0).value.collectionIndex);
  }

  /** The text of a match is there in the input, at the match's position. */
  lemma MatchAtOccurs(p: Pattern, s: string, i: nat)
    requires i <= |s| && MatchAt(p, s, i).Some?
    ensures OccursAt(s, i, MatchText(MatchAt(p, s, i).value))
  {
    match p
    case QuranPattern => QuranAtOccurs(s, i);
    case HadithPattern => AlternativeOccurs(s, i, HadithFrom(s, i, 0).value.collectionIndex);
  }

  /** `pattern.exec(s)` with `lastIndex == from`: the leftmost match starting at or after `from`. */
  function Find(p: Pattern, s: string, from: nat): (r: Option<Citation>)
    requires from <= |s|
    ensures r.Some? ==> from <= r.value.start <= |s| && MatchAt(p, s, r.value.start) == r
    decreases |s| - from
  {
    if MatchAt(p, s, from).Some? then MatchAt(p, s, from)
    else if from == |s| then None
    else Find(p, s, from + 1)
  }

  /** `exec` returns the leftmost match: no match starts between `lastIndex` and the one found. */
  lemma {:induction false} FindLeftmost(p: Pattern, s: string, from: nat, j: nat)
    requires from <= j <= |s|
    requires Find(p, s, from).Some? ==> j < Find(p, s, from).value.start
    ensures MatchAt(p, s, j).None?
    decreases j - from
  {
    if j == from {
      FindAtStart(p, s, from);
    } else {
      FindSkipsPast(p, s, from, j);
      FindLeftmost(p, s, from + 1, j);
    }
  }

  /** One step of `FindLeftmost`: `from` is passed over and the match found from the next position is still beyond `j`. */
  lemma FindSkipsPast(p: Pattern, s: string, from: nat, j: nat)
    requires from < j <= |s|
    requires Find(p, s, from).Some? ==> j < Find(p, s, from).value.start
    ensures Find(p, s, from + 1).Some? ==> j < Find(p, s, from + 1).value.start
  {
    FindSkips(p, s, from);
  }

  /** A match at `from` is the one found. */
  lemma FindAtStart(p: Pattern, s: string, from: nat)
    requires from <= |s|
    ensures MatchAt(p, s, from).Some? ==> Find(p, s, from).Some? && Find(p, s, from).value.start == from
  {
  }

  /** When the match found does not start at `from`, nothing matches there and the search goes on from the next position. */
  lemma FindSkips(p: Pattern, s: string, from: nat)
    requires from < |s|
    requires Find(p, s, from).None? || Find(p, s, from).value.start != from
    ensures MatchAt(p, s, from).None? && Find(p, s, from) == Find(p, s, from + 1)
  {
  }

  /** A match found at or before position `i`, when the pattern matches at `i`. */
  lemma FindComplete(p: Pattern, s: string, from: nat, i: nat)
    requires from <= i <= |s| && MatchAt(p, s, i).Some?
    ensures Find(p, s, from).Some? && Find(p, s, from).value.start <= i
    decreases i - from
  {
    if Find(p, s, from).None? || Find(p, s, from).value.start > i {
      FindLeftmost(p, s, from, i);
    }
  }

  // --------------------------------------------------------------- sources

  /** The source one match contributes: `reference` names the citation, `metadata` holds its numbers. */
  function SourceOf(c: Citation): (m: MessageSource)
    requires AllDigits(c.numbers.first) && AllDigits(c.numbers.second)
    ensures m.text == ""
    ensures m.kind == Quran <==> c.QuranCitation?
  {
    match c
    case QuranCitation(_, _, n, _) =>
      MessageSource(Quran, "Quran " + n.first + ":" + n.second, "", QuranMeta(DigitsValue(n.first), DigitsValue(n.second)))
    case HadithCitation(_, _, collection, n) =>
      MessageSource(Hadith, collection + " " + n.first + ":" + n.second, "", HadithMeta(Slug(collection), n.first, n.second))
  }

  /** The sources of the matches an `exec` loop sees from `lastIndex == from` on, duplicates included. */
  function SourcesFrom(p: Pattern, s: string, from: nat): (r: seq<MessageSource>)
    requires from <= |s|
    decreases |s| - from
  {
    match Find(p, s, from)
    case None => []
    case Some(c) =>
      MatchAtSound(p, s, c.start);
      [SourceOf(c)] + SourcesFrom(p, s, MatchEnd(c))
  }

  function References(xs: seq<MessageSource>): set<string> {
    set i | 0 <= i < |xs| :: xs[i].reference
  }

  /** The `seen` filter: a source is kept when no earlier source (nor `seen`) has its reference. */
  function Dedup(xs: seq<MessageSource>, seen: set<string>): (r: seq<MessageSource>)
    decreases |xs|
  {
    if |xs| == 0 then []
    else if xs[0].reference in seen then Dedup(xs[1..], seen)
    else [xs[0]] + Dedup(xs[1..], seen + {xs[0].reference})
  }

  /** No two sources of `xs` share a reference. */
  predicate DistinctReferences(xs: seq<MessageSource>) {
    forall i, j :: 0 <= i < j < |xs| ==> xs[i].reference != xs[j].reference
  }

  /** The filter keeps sources of `xs` only, none whose reference is in `seen`, and no reference twice. */
  lemma {:induction false} DedupSound(xs: seq<MessageSource>, seen: set<string>)
    ensures forall i :: 0 <= i < |Dedup(xs, seen)| ==> Dedup(xs, seen)[i] in xs && Dedup(xs, seen)[i].reference !in seen
    ensures DistinctReferences(Dedup(xs, seen))
    decreases |xs|
  {
    if |xs| > 0 {
      var x, rest := xs[0], xs[1..];
      assert xs == [x] + rest;
      DedupCons(x, rest, seen);
      if x.reference in seen {
        DedupSound(rest, seen);
      } else {
        DedupSound(rest, seen + {x.reference});
      }
    }
  }

  /** `extractSources(response)`: the Quran sources, then the hadith sources, first occurrence of each reference. */
  function ExtractedSources(response: string): seq<MessageSource> {
    Dedup(SourcesFrom(QuranPattern, response, 0) + SourcesFrom(HadithPattern, response, 0), {})
  }

  lemma SourcesFromStep(p: Pattern, s: string, from: nat)
    requires from <= |s| && Find(p, s, from).Some?
    ensures var c := Find(p, s, from).value;
      AllDigits(c.numbers.first) && AllDigits(c.numbers.second) &&
      SourcesFrom(p, s, from) == [SourceOf(c)] + SourcesFrom(p, s, MatchEnd(c))
  {
    var c := Find(p, s, from).value;
    MatchAtSound(p, s, c.start);
  }

  /** One turn of an `exec` loop: the next source is kept exactly when its reference is new. */
  lemma DedupStep(xs: seq<MessageSource>, x: MessageSource, ys: seq<MessageSource>, rest: seq<MessageSource>,
                  sources: seq<MessageSource>, seen: set<string>)
    requires xs == [x] + ys
    ensures x.reference in seen ==> sources + Dedup(xs + rest, seen) == sources + Dedup(ys + rest, seen)
    ensures x.reference !in seen ==>
      sources + Dedup(xs + rest, seen) == (sources + [x]) + Dedup(ys + rest, seen + {x.reference})
  {
    assert xs + rest == [x] + (ys + rest);
    DedupCons(x, ys + rest, seen);
  }

  lemma DedupCons(x: MessageSource, tail: seq<MessageSource>, seen: set<string>)
    ensures Dedup([x] + tail, seen) ==
      if x.reference in seen then Dedup(tail, seen) else [x] + Dedup(tail, seen + {x.reference})
  {
    assert ([x] + tail)[0] == x && ([x] + tail)[1..] == tail;
  }

  /** The last turn of an `exec` loop: no match is left. */
  lemma ExecDone(p: Pattern, s: string, from: nat)
    requires from <= |s| && Find(p, s, from).None?
    ensures SourcesFrom(p, s, from) == []
  {
  }

  lemma ReferencesSnoc(xs: seq<MessageSource>, x: MessageSource)
    ensures References(xs + [x]) == References(xs) + {x.reference}
  {
    var ys := xs + [x];
    assert ys[|xs|] == x;
    forall r | r in References(xs) ensures r in References(ys) {
      var i :| 0 <= i < |xs| && xs[i].reference == r;
      assert ys[i] == xs[i];
    }
  }

  /** `extractSources`: two `exec` loops sharing one `seen` set. */
  method ExtractSources(response: string) returns (sources: seq<MessageSource>)
    ensures sources == ExtractedSources(response)
    ensures DistinctReferences(sources)
  {
    sources := [];
    var seen: set<string> := {};
    var lastIndex: nat := 0;
    var found := Find(QuranPattern, response, lastIndex);
    while found.Some?
      invariant lastIndex <= |response| && found == Find(QuranPattern, response, lastIndex)
      invariant seen == References(sources)
      invariant sources + Dedup(SourcesFrom(QuranPattern, response, lastIndex) + SourcesFrom(HadithPattern, response, 0), seen)
                == ExtractedSources(response)
      decreases |response| - lastIndex
    {
      var c := found.value;
      SourcesFromStep(QuranPattern, response, lastIndex);
      DedupStep(SourcesFrom(QuranPattern, response, lastIndex), SourceOf(c), SourcesFrom(QuranPattern, response, MatchEnd(c)),
                SourcesFrom(HadithPattern, response, 0), sources, seen);
      var reference := "Quran " + c.numbers.first + ":" + c.numbers.second;
      lastIndex := MatchEnd(c);
      if reference !in seen {
        ReferencesSnoc(sources, SourceOf(c));
        seen := seen + {reference};
        sources := sources + [SourceOf(c)];
      }
      found := Find(QuranPattern, response, lastIndex);
    }
    ExecDone(QuranPattern, response, lastIndex);
    assert [] + SourcesFrom(HadithPattern, response, 0) == SourcesFrom(HadithPattern, response, 0) + [];
    lastIndex := 0;
    found := Find(HadithPattern, response, lastIndex);
    while found.Some?
      invariant lastIndex <= |response| && found == Find(HadithPattern, response, lastIndex)
      invariant seen == References(sources)
      invariant sources + Dedup(SourcesFrom(HadithPattern, response, lastIndex) + [], seen) == ExtractedSources(response)
      decreases |response| - lastIndex
    {
      var c := found.value;
      SourcesFromStep(HadithPattern, response, lastIndex);
      DedupStep(SourcesFrom(HadithPattern, response, lastIndex), SourceOf(c), SourcesFrom(HadithPattern, response, MatchEnd(c)),
                [], sources, seen);
      var reference := c.collection + " " + c.numbers.first + ":" + c.numbers.second;
      lastIndex := MatchEnd(c);
      if reference !in seen {
        ReferencesSnoc(sources, SourceOf(c));
        seen := seen + {reference};
        sources := sources + [SourceOf(c)];
      }
      found := Find(HadithPattern, response, lastIndex);
    }
    ExecDone(HadithPattern, response, lastIndex);
    assert SourcesFrom(HadithPattern, response, lastIndex) + [] == [];
    DedupSound(SourcesFrom(QuranPattern, response, 0) + SourcesFrom(HadithPattern, response, 0), {});
  }
  // ------------------------------------------------------ what is extracted

  /** The source a pattern's match at `i` contributes, if the pattern matches there. */
  function SourceAt(p: Pattern, s: string, i: nat): Option<MessageSource>
    requires i <= |s|
  {
    match MatchAt(p, s, i)
    case None => None
    case Some(c) => MatchAtSound(p, s, i); Some(SourceOf(c))
  }

  function KindOf(p: Pattern): SourceKind {
    if p.QuranPattern? then Quran else Hadith
  }

  /** Every source an `exec` loop sees is the source of one of its pattern's matches. */
  lemma {:induction false} SourcesFromMatched(p: Pattern, s: string, from: nat)
    requires from <= |s|
    ensures forall k :: 0 <= k < |SourcesFrom(p, s, from)| ==>
      exists i :: from <= i <= |s| && SourceAt(p, s, i) == Some(SourcesFrom(p, s, from)[k])
    decreases |s| - from
  {
    if Find(p, s, from).Some? {
      var c := Find(p, s, from).value;
      SourcesFromStep(p, s, from);
      SourcesFromMatched(p, s, MatchEnd(c));
      var xs := SourcesFrom(p, s, from);
      assert SourceAt(p, s, c.start) == Some(xs[0]);
      forall k | 0 < k < |xs|
        ensures exists i :: from <= i <= |s| && SourceAt(p, s, i) == Some(xs[k])
      {
        assert xs[k] == SourcesFrom(p, s, MatchEnd(c))[k - 1];
      }
    } else {
      ExecDone(p, s, from);
    }
  }

  /** A source some well-formed citation contributes. */
  ghost predicate Cited(x: MessageSource) {
    exists c :: ReferenceShaped(c) && SourceOf(c) == x
  }

  /** Every source an `exec` loop sees has the pattern's kind and comes from a well-formed citation. */
  lemma {:induction false} SourcesFromCited(p: Pattern, s: string, from: nat)
    requires from <= |s|
    ensures forall x :: x in SourcesFrom(p, s, from) ==> x.kind == KindOf(p) && Cited(x)
    decreases |s| - from
  {
    if Find(p, s, from).Some? {
      var c := Find(p, s, from).value;
      SourcesFromStep(p, s, from);
      MatchAtSound(p, s, c.start);
      assert ReferenceShaped(c);
      SourcesFromCited(p, s, MatchEnd(c));
    } else {
      ExecDone(p, s, from);
    }
  }

  /**
   * A reference `name n:m` splits back into its name and numbers: the numbers are
   * the digit runs after the last space and after the colon.
   */
  lemma DigitSuffix(t1: string, d1: string, t2: string, d2: string, sep: char)
    requires !IsAsciiDigit(sep) && AllDigits(d1) && AllDigits(d2)
    requires t1 + [sep] + d1 == t2 + [sep] + d2
    ensures t1 == t2 && d1 == d2
  {
    var r := t1 + [sep] + d1;
    assert r[|t1|] == sep;
    assert (t2 + [sep] + d2)[|t2|] == sep;
    assert t1 == r[..|t1|] && t2 == r[..|t2|];
    assert d1 == r[|t1| + 1..] && d2 == r[|t2| + 1..];
  }

  lemma ReferenceSplits(x1: string, a1: string, b1: string, x2: string, a2: string, b2: string)
    requires AllDigits(a1) && AllDigits(b1) && AllDigits(a2) && AllDigits(b2)
    requires x1 + " " + a1 + ":" + b1 == x2 + " " + a2 + ":" + b2
    ensures x1 == x2 && a1 == a2 && b1 == b2
  {
    DigitSuffix(x1 + " " + a1, b1, x2 + " " + a2, b2, ':');
    DigitSuffix(x1, a1, x2, a2, ' ');
  }

  /** What the reference of a citation depends on: digit-only numbers, and a hadith name starting with `S` or `s`. */
  predicate ReferenceShaped(c: Citation) {
    AllDigits(c.numbers.first) && AllDigits(c.numbers.second) &&
    (c.HadithCitation? ==> |c.collection| > 0 && LowerAscii(c.collection[0]) == 's')
  }

  /** Two citations with the same reference contribute the same source. */
  lemma SourceOfInjective(c1: Citation, c2: Citation)
    requires ReferenceShaped(c1) && ReferenceShaped(c2) && SourceOf(c1).reference == SourceOf(c2).reference
    ensures SourceOf(c1) == SourceOf(c2)
  {
    ReferenceParts(c1, c2);
  }

  /** The name a reference starts with: `Quran`, or the collection as written. */
  function ReferenceName(c: Citation): string {
    if c.QuranCitation? then "Quran" else c.collection
  }

  lemma ReferenceText(c: Citation)
    requires AllDigits(c.numbers.first) && AllDigits(c.numbers.second)
    ensures SourceOf(c).reference == ReferenceName(c) + " " + c.numbers.first + ":" + c.numbers.second
  {
  }

  /** A reference gives back the kind, the numbers and, for a hadith, the collection text it was built from. */
  lemma ReferenceParts(c1: Citation, c2: Citation)
    requires ReferenceShaped(c1) && ReferenceShaped(c2) && SourceOf(c1).reference == SourceOf(c2).reference
    ensures c1.QuranCitation? == c2.QuranCitation?
    ensures c1.numbers.first == c2.numbers.first && c1.numbers.second == c2.numbers.second
    ensures c1.HadithCitation? && c2.HadithCitation? ==> c1.collection == c2.collection
  {
    var x1 := ReferenceName(c1);
    var x2 := ReferenceName(c2);
    ReferenceText(c1);
    ReferenceText(c2);
    assert LowerAscii('Q') == 'q';
    ReferenceSplits(x1, c1.numbers.first, c1.numbers.second, x2, c2.numbers.first, c2.numbers.second);
  }

  /** Two matches with the same reference contribute the same source, so dropping the later loses nothing. */
  lemma ReferenceDeterminesSource(p1: Pattern, i1: nat, p2: Pattern, i2: nat, s: string)
    requires i1 <= |s| && i2 <= |s| && SourceAt(p1, s, i1).Some? && SourceAt(p2, s, i2).Some?
    requires SourceAt(p1, s, i1).value.reference == SourceAt(p2, s, i2).value.reference
    ensures SourceAt(p1, s, i1) == SourceAt(p2, s, i2)
  {
    MatchAtSound(p1, s, i1);
    MatchAtSound(p2, s, i2);
    SourceOfInjective(MatchAt(p1, s, i1).value, MatchAt(p2, s, i2).value);
  }

  /** Two cited sources with the same reference are the same source. */
  lemma CitedInjective(x: MessageSource, y: MessageSource)
    requires Cited(x) && Cited(y) && x.reference == y.reference
    ensures x == y
  {
    var c1 :| ReferenceShaped(c1) && SourceOf(c1) == x;
    var c2 :| ReferenceShaped(c2) && SourceOf(c2) == y;
    SourceOfInjective(c1, c2);
  }

  // ------------------------------------------------------------ the filter

  /** The sources of `xs` that no source before them shares a reference with. */
  function FirstOccurrences(xs: seq<MessageSource>, n: nat): seq<MessageSource>
    requires n <= |xs|
  {
    if n == 0 then []
    else FirstOccurrences(xs, n - 1) + (if IsFirstAt(xs, n - 1) then [xs[n - 1]] else [])
  }

  predicate IsFirstAt(xs: seq<MessageSource>, j: nat)
    requires j < |xs|
  {
    forall k :: 0 <= k < j ==> xs[k].reference != xs[j].reference
  }

  lemma ReferencesPrefix(xs: seq<MessageSource>, n: nat)
    requires n < |xs|
    ensures References(xs[..n + 1]) == References(xs[..n]) + {xs[n].reference}
    ensures xs[n].reference in References(xs[..n]) <==> !IsFirstAt(xs, n)
  {
    assert xs[..n + 1] == xs[..n] + [xs[n]];
    ReferencesSnoc(xs[..n], xs[n]);
    if !IsFirstAt(xs, n) {
      var k :| 0 <= k < n && xs[k].reference == xs[n].reference;
      assert xs[..n][k] == xs[k];
    }
  }

  /** Moving one source from the unfiltered rest to the first occurrences leaves the whole unchanged. */
  lemma DedupSplitStep(xs: seq<MessageSource>, m: nat)
    requires m < |xs|
    ensures FirstOccurrences(xs, m) + Dedup(xs[m..], References(xs[..m])) ==
      FirstOccurrences(xs, m + 1) + Dedup(xs[m + 1..], References(xs[..m + 1]))
  {
    var x, seen := xs[m], References(xs[..m]);
    ReferencesPrefix(xs, m);
    assert xs[m..] == [x] + xs[m + 1..];
    DedupCons(x, xs[m + 1..], seen);
    if IsFirstAt(xs, m) {
      assert FirstOccurrences(xs, m + 1) == FirstOccurrences(xs, m) + [x];
    } else {
      assert FirstOccurrences(xs, m + 1) == FirstOccurrences(xs, m);
      assert References(xs[..m + 1]) == seen;
      assert Dedup(xs[m..], seen) == Dedup(xs[m + 1..], seen);
    }
  }

  lemma {:induction false} DedupSplit(xs: seq<MessageSource>, n: nat)
    requires n <= |xs|
    ensures FirstOccurrences(xs, n) + Dedup(xs[n..], References(xs[..n])) == Dedup(xs, {})
    decreases n
  {
    if n == 0 {
      assert xs[0..] == xs;
      assert References(xs[..0]) == {};
    } else {
      DedupSplit(xs, n - 1);
      DedupSplitStep(xs, n - 1);
    }
  }

  /** The filter keeps exactly the first source of each reference, in order. */
  lemma DedupIsFirstOccurrences(xs: seq<MessageSource>)
    ensures Dedup(xs, {}) == FirstOccurrences(xs, |xs|)
  {
    DedupSplit(xs, |xs|);
    assert xs[|xs|..] == [];
    assert xs[..|xs|] == xs;
  }

  lemma ReferencesCons(x: MessageSource, xs: seq<MessageSource>)
    ensures References([x] + xs) == {x.reference} + References(xs)
  {
    var ys := [x] + xs;
    assert ys[0] == x;
    forall t | t in References(xs) ensures t in References(ys) {
      var i :| 0 <= i < |xs| && xs[i].reference == t;
      assert ys[i + 1] == xs[i];
    }
    forall t | t in References(ys) ensures t in {x.reference} + References(xs) {
      var i :| 0 <= i < |ys| && ys[i].reference == t;
      if i > 0 {
        assert xs[i - 1] == ys[i];
      }
    }
  }

  /** No reference is lost: every reference in `xs` is in `seen` or kept. */
  lemma {:induction false} DedupKeepsReferences(xs: seq<MessageSource>, seen: set<string>)
    ensures References(xs) <= seen + References(Dedup(xs, seen))
    decreases |xs|
  {
    if |xs| > 0 {
      var x, rest := xs[0], xs[1..];
      assert xs == [x] + rest;
      ReferencesCons(x, rest);
      DedupCons(x, rest, seen);
      if x.reference in seen {
        DedupKeepsReferences(rest, seen);
      } else {
        DedupKeepsReferences(rest, seen + {x.reference});
        ReferencesCons(x, Dedup(rest, seen + {x.reference}));
      }
    }
  }

  /** A reference that `xs` does not hold makes no difference to the filter. */
  lemma {:induction false} DedupIgnoresUnrelated(xs: seq<MessageSource>, seen: set<string>, t: string)
    requires t !in References(xs)
    ensures Dedup(xs, seen + {t}) == Dedup(xs, seen)
    decreases |xs|
  {
    if |xs| > 0 {
      var x := xs[0];
      assert x.reference != t;
      assert t !in References(xs[1..]) by {
        forall i | 0 <= i < |xs[1..]| ensures xs[1..][i].reference != t {
          assert xs[1..][i] == xs[i + 1];
        }
      }
      if x.reference in seen {
        DedupIgnoresUnrelated(xs[1..], seen, t);
      } else {
        assert seen + {t} + {x.reference} == seen + {x.reference} + {t};
        DedupIgnoresUnrelated(xs[1..], seen + {x.reference}, t);
      }
    }
  }

  /** Filtering lists with no reference in common filters each on its own. */
  lemma {:induction false} DedupAppendDisjoint(xs: seq<MessageSource>, ys: seq<MessageSource>, seen: set<string>)
    requires References(xs) !! References(ys)
    ensures Dedup(xs + ys, seen) == Dedup(xs, seen) + Dedup(ys, seen)
    decreases |xs|
  {
    if |xs| == 0 {
      assert xs + ys == ys;
    } else {
      var x, rest := xs[0], xs[1..];
      assert xs == [x] + rest;
      assert xs + ys == [x] + (rest + ys);
      ReferencesCons(x, rest);
      assert References(rest) !! References(ys);
      DedupCons(x, rest + ys, seen);
      DedupCons(x, rest, seen);
      if x.reference in seen {
        DedupAppendDisjoint(rest, ys, seen);
      } else {
        var seen' := seen + {x.reference};
        DedupAppendDisjoint(rest, ys, seen');
        assert x.reference !in References(ys);
        DedupIgnoresUnrelated(ys, seen, x.reference);
        assert [x] + (Dedup(rest, seen') + Dedup(ys, seen)) == ([x] + Dedup(rest, seen')) + Dedup(ys, seen);
      }
    }
  }
  // ---------------------------------------------------- extractSources laws

  /** The sources the two loops see before filtering. */
  function SeenSources(s: string): seq<MessageSource> {
    SourcesFrom(QuranPattern, s, 0) + SourcesFrom(HadithPattern, s, 0)
  }

  /** Every extracted source is one the loops saw, and no reference is extracted twice. */
  lemma ExtractedSourcesSound(s: string)
    ensures forall x :: x in ExtractedSources(s) ==> x in SeenSources(s)
    ensures DistinctReferences(ExtractedSources(s))
  {
    DedupSound(SeenSources(s), {});
  }

  lemma SeenSourcesCited(s: string)
    ensures forall x :: x in SeenSources(s) ==> Cited(x)
  {
    SourcesFromCited(QuranPattern, s, 0);
    SourcesFromCited(HadithPattern, s, 0);
  }

  /** Nothing the loops see is lost: every source of a match they visit is extracted. */
  lemma ExtractedSourcesComplete(s: string)
    ensures forall x :: x in SeenSources(s) ==> x in ExtractedSources(s)
  {
    var xs, r := SeenSources(s), ExtractedSources(s);
    DedupSound(xs, {});
    DedupKeepsReferences(xs, {});
    SeenSourcesCited(s);
    forall x | x in xs ensures x in r {
      var m :| 0 <= m < |xs| && xs[m] == x;
      assert x.reference in References(xs);
      var k :| 0 <= k < |r| && r[k].reference == x.reference;
      CitedInjective(x, r[k]);
    }
  }

  /** Cited sources of different kinds never share a reference. */
  lemma KindsDisjoint(q: seq<MessageSource>, h: seq<MessageSource>)
    requires forall x :: x in q ==> x.kind == Quran && Cited(x)
    requires forall x :: x in h ==> x.kind == Hadith && Cited(x)
    ensures References(q) !! References(h)
  {
    forall t | t in References(q) ensures t !in References(h) {
      var a :| 0 <= a < |q| && q[a].reference == t;
      if t in References(h) {
        var b :| 0 <= b < |h| && h[b].reference == t;
        CitedInjective(q[a], h[b]);
      }
    }
  }

  /** Filtering Quran sources followed by hadith sources keeps every Quran source ahead of every hadith source. */
  lemma DedupKeepsKindOrder(q: seq<MessageSource>, h: seq<MessageSource>)
    requires forall x :: x in q ==> x.kind == Quran
    requires forall x :: x in h ==> x.kind == Hadith
    ensures forall i, j :: 0 <= i < j < |Dedup(q, {}) + Dedup(h, {})| && (Dedup(q, {}) + Dedup(h, {}))[i].kind == Hadith ==>
      (Dedup(q, {}) + Dedup(h, {}))[j].kind == Hadith
  {
    DedupSound(q, {});
    DedupSound(h, {});
    var dq, dh := Dedup(q, {}), Dedup(h, {});
    var r := dq + dh;
    forall i, j | 0 <= i < j < |r| && r[i].kind == Hadith ensures r[j].kind == Hadith {
      assert r[j] == dh[j - |dq|] && dh[j - |dq|] in h;
    }
  }

  /** All Quran sources come first, then the hadith sources, each list filtered on its own. */
  lemma QuranBeforeHadith(s: string)
    ensures ExtractedSources(s) == Dedup(SourcesFrom(QuranPattern, s, 0), {}) + Dedup(SourcesFrom(HadithPattern, s, 0), {})
    ensures forall i, j :: 0 <= i < j < |ExtractedSources(s)| && ExtractedSources(s)[i].kind == Hadith ==>
      ExtractedSources(s)[j].kind == Hadith
  {
    var q, h := SourcesFrom(QuranPattern, s, 0), SourcesFrom(HadithPattern, s, 0);
    SourcesFromCited(QuranPattern, s, 0);
    SourcesFromCited(HadithPattern, s, 0);
    KindsDisjoint(q, h);
    DedupAppendDisjoint(q, h, {});
    DedupKeepsKindOrder(q, h);
  }

  /** `Quran` in any letter case, whitespace and a pair of numbers: the Quran expression matches there. */
  lemma QuranAtComplete(s: string, i: nat, n: Numbers)
    requires i <= |s| && MatchesAt(s, i, "Quran") && NumbersShaped(n) && OccursAt(s, i + 5, NumbersText(n))
    ensures QuranAt(s, i).Some? && QuranAt(s, i).value.numbers.first == n.first
  {
    NumbersAtComplete(s, i + 5, n);
  }

  /** A text that cites the Quran anywhere yields at least one Quran source. */
  lemma QuranCitationExtracted(s: string, i: nat, n: Numbers)
    requires i <= |s| && MatchesAt(s, i, "Quran") && NumbersShaped(n) && OccursAt(s, i + 5, NumbersText(n))
    ensures exists k :: 0 <= k < |ExtractedSources(s)| && ExtractedSources(s)[k].kind == Quran
  {
    QuranAtComplete(s, i, n);
    FindComplete(QuranPattern, s, 0, i);
    SourcesFromStep(QuranPattern, s, 0);
    SourcesFromCited(QuranPattern, s, 0);
    var x := SourcesFrom(QuranPattern, s, 0)[0];
    assert x in SeenSources(s);
    ExtractedSourcesComplete(s);
  }
  /**
   * The phrase `words` is spelt at `i` and ends at `e`: every word in any letter
   * case, consecutive words separated by whitespace runs of the lengths in `gaps`.
   */
  predicate PhraseSpelt(s: string, i: nat, words: seq<string>, gaps: seq<nat>, e: nat)
    decreases |words|
  {
    |words| > 0 && |gaps| == |words| - 1 && i <= e <= |s| && MatchesAt(s, i, words[0]) &&
    if |words| == 1 then e == i + |words[0]|
    else
      var a := i + |words[0]|;
      gaps[0] > 0 && a + gaps[0] <= |s| && AllWhitespace(s[a..a + gaps[0]]) &&
      PhraseSpelt(s, a + gaps[0], words[1..], gaps[1..], e)
  }

  /** Any spelling of a phrase is matched, and the match ends where the spelling does. */
  lemma {:induction false} PhraseEndComplete(s: string, i: nat, words: seq<string>, gaps: seq<nat>, e: nat)
    requires i <= |s| && PlainWords(words) && PhraseSpelt(s, i, words, gaps, e)
    ensures PhraseEnd(s, i, words) == Some(e)
    decreases |words|
  {
    if |words| > 1 {
      var a := i + |words[0]|;
      var b := a + gaps[0];
      PlainWordsTail(words);
      PhraseStartsPlain(s, b, words[1]);
      forall j | a <= j < b ensures InClass(Space, s[j]) {
        assert s[j] == s[a..b][j - a];
      }
      RunEndUnique(s, a, Space, b);
      PhraseEndComplete(s, b, words[1..], gaps[1..], e);
    }
  }

  /** A spelling of collection `k` followed by whitespace and `b:h`: the hadith expression matches there. */
  lemma HadithAtComplete(s: string, i: nat, k: nat, gaps: seq<nat>, e: nat, n: Numbers)
    requires i <= |s| && k < CollectionCount && PhraseSpelt(s, i, Collection(k), gaps, e)
    requires NumbersShaped(n) && OccursAt(s, e, NumbersText(n))
    ensures AlternativeAt(s, i, k).Some?
    ensures AlternativeAt(s, i, k).value.collection == s[i..e] && AlternativeAt(s, i, k).value.numbers.first == n.first
    ensures HadithFrom(s, i, 0).Some? && HadithFrom(s, i, 0).value.collectionIndex <= k
  {
    CollectionsArePlain(k);
    PhraseEndComplete(s, i, Collection(k), gaps, e);
    NumbersAtComplete(s, e, n);
  }

  /** A text that cites a hadith collection anywhere yields at least one hadith source. */
  lemma HadithCitationExtracted(s: string, i: nat, k: nat, gaps: seq<nat>, e: nat, n: Numbers)
    requires i <= |s| && k < CollectionCount && PhraseSpelt(s, i, Collection(k), gaps, e)
    requires NumbersShaped(n) && OccursAt(s, e, NumbersText(n))
    ensures exists j :: 0 <= j < |ExtractedSources(s)| && ExtractedSources(s)[j].kind == Hadith
  {
    HadithAtComplete(s, i, k, gaps, e, n);
    FindComplete(HadithPattern, s, 0, i);
    SourcesFromStep(HadithPattern, s, 0);
    SourcesFromCited(HadithPattern, s, 0);
    var x := SourcesFrom(HadithPattern, s, 0)[0];
    assert x in SeenSources(s);
    ExtractedSourcesComplete(s);
  }

  /** A Quran citation's reference ignores the spelling of `Quran`, the spacing and any range end. */
  lemma QuranSpellingsShareReference(c1: Citation, c2: Citation)
    requires c1.QuranCitation? && c2.QuranCitation?
    requires AllDigits(c1.numbers.first) && AllDigits(c1.numbers.second)
    requires c1.numbers.first == c2.numbers.first && c1.numbers.second == c2.numbers.second
    ensures SourceOf(c1) == SourceOf(c2)
    ensures SourceOf(c1).reference == "Quran " + c1.numbers.first + ":" + c1.numbers.second
  {
  }

  /** The slug of a two-word name. */
  lemma SlugName(w1: string, sp: string, w2: string)
    requires forall k :: 0 <= k < |w1| ==> !IsJsWhitespace(w1[k])
    requires forall k :: 0 <= k < |w2| ==> !IsJsWhitespace(w2[k])
    requires |sp| > 0 && AllWhitespace(sp) && |w2| > 0
    ensures Slug(w1 + sp + w2) == LowerString(w1) + "-" + LowerString(w2)
  {
    assert w1 + sp + w2 == w1 + (sp + w2);
    SlugWord(w1, sp + w2);
    SlugSpace(sp, w2);
    SlugWord(w2, "");
    assert w2 + "" == w2;
  }

  /**
   * A hadith reference keeps the collection name as written: two spellings of one
   * collection give two sources, with the same metadata.
   */
  lemma HadithSpellingsKeptApart(c1: Citation, c2: Citation)
    requires c1.HadithCitation? && c2.HadithCitation?
    requires AllDigits(c1.numbers.first) && AllDigits(c1.numbers.second)
    requires c1.numbers.first == c2.numbers.first && c1.numbers.second == c2.numbers.second
    requires c1.collection != c2.collection && Slug(c1.collection) == Slug(c2.collection)
    ensures SourceOf(c1).reference != SourceOf(c2).reference
    ensures SourceOf(c1).metadata == SourceOf(c2).metadata
  {
    if SourceOf(c1).reference == SourceOf(c2).reference {
      ReferenceSplits(c1.collection, c1.numbers.first, c1.numbers.second, c2.collection, c2.numbers.first, c2.numbers.second);
    }
  }

  lemma LowerSahihBukhari()
    ensures LowerString("Sahih") == "sahih" && LowerString("sahih") == "sahih"
    ensures LowerString("Bukhari") == "bukhari" && LowerString("bukhari") == "bukhari"
  {
  }

  lemma SahihBukhariSlug()
    ensures Slug("Sahih Bukhari") == "sahih-bukhari"
  {
    assert "Sahih Bukhari" == "Sahih" + " " + "Bukhari";
    SlugName("Sahih", " ", "Bukhari");
    LowerSahihBukhari();
    assert "sahih" + "-" + "bukhari" == "sahih-bukhari";
  }

  lemma SpacedSahihBukhariSlug()
    ensures Slug("sahih  bukhari") == "sahih-bukhari"
  {
    assert "sahih  bukhari" == "sahih" + "  " + "bukhari";
    SlugName("sahih", "  ", "bukhari");
    LowerSahihBukhari();
    assert "sahih" + "-" + "bukhari" == "sahih-bukhari";
  }

  /** Two spellings that map to the same `collectionName`. */
  lemma BukhariSpellings()
    ensures Slug("Sahih Bukhari") == Slug("sahih  bukhari") == "sahih-bukhari"
  {
    SahihBukhariSlug();
    SpacedSahihBukhariSlug();
  }
}
