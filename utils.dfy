// Text cleaning: the Japanese-only filter applied to converted books, and the
// normalisation of the token surfaces a morphological analyser produces.

module Utils {
  import opened Strings

  /** U+3000, the ideographic space, which the Japanese filter keeps and then deletes. */
  const IdeographicSpace: char := 0x3000 as char

  /** The code-point ranges the Japanese filter keeps: CJK symbols and
      punctuation, hiragana, katakana, half- and full-width forms, the CJK
      unified ideographs up to U+9FAF, two stars, six arrows and the
      reference mark U+203B. */
  predicate IsJapanese(c: char)
  {
    var n := c as int;
    (0x3000 <= n <= 0x303F) || (0x3040 <= n <= 0x309F) || (0x30A0 <= n <= 0x30FF) ||
    (0xFF00 <= n <= 0xFFEF) || (0x4E00 <= n <= 0x9FAF) || (0x2605 <= n <= 0x2606) ||
    (0x2190 <= n <= 0x2195) || n == 0x203B
  }

  /** What the filter finally keeps: a Japanese character other than U+3000. */
  predicate KeptJapanese(c: char)
  {
    IsJapanese(c) && c != IdeographicSpace
  }

  /** The characters a regular-expression `\s` matches in a text pattern:
      the ASCII blanks, the information separators U+001C-U+001F, U+0085,
      the no-break spaces and the Unicode space separators. */
  predicate IsWhitespace(c: char)
  {
    var n := c as int;
    (0x09 <= n <= 0x0D) || (0x1C <= n <= 0x20) || n == 0x85 || n == 0xA0 || n == 0x1680 ||
    (0x2000 <= n <= 0x200A) || n == 0x2028 || n == 0x2029 || n == 0x202F || n == 0x205F || n == 0x3000
  }

  predicate NotWhitespace(c: char)
  {
    !IsWhitespace(c)
  }

  /** Keeps every Japanese character of `text` in order, then deletes every U+3000. */
  function ProcessJapaneseText(text: string): (r: string)
    ensures IdeographicSpace !in r
    ensures forall i :: 0 <= i < |r| ==> r[i] in text && KeptJapanese(r[i])
    ensures forall i :: 0 <= i < |text| && KeptJapanese(text[i]) ==> text[i] in r
  {
    RemoveChar(Filter(text, IsJapanese), IdeographicSpace)
  }

  /** The two steps amount to one order-preserving filter by `KeptJapanese`. */
  lemma ProcessJapaneseTextIsFilter(text: string)
    ensures ProcessJapaneseText(text) == Filter(text, KeptJapanese)
  {
    RemoveCharIsFilter(Filter(text, IsJapanese), IdeographicSpace, c => c != IdeographicSpace);
    FilterFilter(text, IsJapanese, c => c != IdeographicSpace, KeptJapanese);
  }

  /** The result is the input with characters deleted, never reordered. */
  lemma ProcessJapaneseTextSubsequence(text: string)
    ensures IsSubsequence(ProcessJapaneseText(text), text)
  {
    ProcessJapaneseTextIsFilter(text);
    FilterIsSubsequence(text, KeptJapanese);
  }

  /** Filtering an already filtered text changes nothing. */
  lemma ProcessJapaneseTextIdempotent(text: string)
    ensures ProcessJapaneseText(ProcessJapaneseText(text)) == ProcessJapaneseText(text)
  {
    ProcessJapaneseTextIsFilter(text);
    ProcessJapaneseTextIsFilter(ProcessJapaneseText(text));
    FilterIdempotent(text, KeptJapanese);
  }

  /** The filter string is a raw string literal, so `\u`, `\t`, `\r` and `\s`
      in it are a backslash followed by an ordinary letter. */
  const FilterStr: string := "()./,!:?\\uksa0123456789\\t\\r\\s ."

  /** Removes every occurrence of each character of `cs`, in the order of `cs`. */
  function RemoveEach(w: string, cs: string): (r: string)
    ensures forall i :: 0 <= i < |r| ==> r[i] !in cs && r[i] in w
  {
    if cs == [] then w
    else
      var r := RemoveChar(RemoveEach(w, cs[..|cs| - 1]), cs[|cs| - 1]);
      assert forall i :: 0 <= i < |r| ==> r[i] !in cs by {
        forall i | 0 <= i < |r| ensures r[i] !in cs {
          assert cs == cs[..|cs| - 1] + [cs[|cs| - 1]];
        }
      }
      r
  }

  /** Removing the characters one by one is a single filter by "not in `cs`". */
  lemma {:induction false} RemoveEachIsFilter(w: string, cs: string)
    ensures RemoveEach(w, cs) == Filter(w, c => c !in cs)
  {
    if cs == [] {
      assert forall i :: 0 <= i < |w| ==> w[i] !in cs;
      FilterAll(w, c => c !in cs);
    } else {
      var init := cs[..|cs| - 1];
      var last := cs[|cs| - 1];
      assert cs == init + [last];
      RemoveEachIsFilter(w, init);
      RemoveCharIsFilter(RemoveEach(w, init), last, c => c != last);
      FilterFilter(w, c => c !in init, c => c != last, c => c !in cs);
    }
  }

  /** Filtering by a predicate every element meets changes nothing. */
  lemma {:induction false} FilterAll(s: string, p: char -> bool)
    requires forall i :: 0 <= i < |s| ==> p(s[i])
    ensures Filter(s, p) == s
  {
    if s != [] {
      assert s == [s[0]] + s[1..];
      FilterAppend([s[0]], s[1..], p);
      FilterAll(s[1..], p);
    }
  }

  /** A character that survives cleaning. */
  predicate Kept(c: char)
  {
    !IsWhitespace(c) && c !in FilterStr
  }

  /** One token surface with all whitespace removed, then every character of the filter string. */
  function Clean(surface: string): (w: string)
    ensures forall i :: 0 <= i < |w| ==> Kept(w[i]) && w[i] in surface
  {
    RemoveEach(Filter(surface, NotWhitespace), FilterStr)
  }

  /** Cleaning is one order-preserving filter by `Kept`. */
  lemma CleanIsFilter(surface: string)
    ensures Clean(surface) == Filter(surface, Kept)
  {
    RemoveEachIsFilter(Filter(surface, NotWhitespace), FilterStr);
    FilterFilter(surface, NotWhitespace, c => c !in FilterStr, Kept);
  }

  /** The filter string is plain ASCII, so no character beyond U+007F is in it. */
  lemma NonAsciiKept(c: char)
    requires c as int >= 128 && !IsWhitespace(c)
    ensures Kept(c)
  {
    forall i | 0 <= i < |FilterStr| ensures FilterStr[i] != c {
      assert (FilterStr[i] as int) < 128;
    }
  }

  /** A surface whose characters are all removed cleans to the empty word. */
  lemma CleanNothingKept(surface: string)
    requires forall i :: 0 <= i < |surface| ==> !Kept(surface[i])
    ensures Clean(surface) == []
  {
    CleanIsFilter(surface);
    FilterNone(surface, Kept);
  }

  /** A single kept character between removed ones is the whole word. */
  lemma CleanSingleKept(pre: string, c: char, post: string)
    requires forall i :: 0 <= i < |pre| ==> !Kept(pre[i])
    requires forall i :: 0 <= i < |post| ==> !Kept(post[i])
    requires Kept(c)
    ensures Clean(pre + [c] + post) == [c]
  {
    CleanIsFilter(pre + [c] + post);
    FilterAppend(pre + [c], post, Kept);
    FilterAppend(pre, [c], Kept);
    FilterNone(pre, Kept);
    FilterNone(post, Kept);
    FilterSingle(c, Kept);
  }

  /** A surface with a trailing tab keeps its word. */
  lemma CleanTabbedWord()
    ensures Clean("猫\t") == "猫"
  {
    NonAsciiKept('猫');
    assert "猫\t" == [] + ['猫'] + ['\t'];
    CleanSingleKept([], '猫', ['\t']);
  }

  /** A number is dropped entirely. */
  lemma CleanNumber()
    ensures Clean("123") == ""
  {
    DigitsRemoved();
    CleanNothingKept("123");
  }

  lemma DigitsRemoved()
    ensures !Kept('1') && !Kept('2') && !Kept('3')
  {
    assert FilterStr[14] == '1' && FilterStr[15] == '2' && FilterStr[16] == '3';
  }

  /** The full-width '！' (U+FF01) survives: only the ASCII '!' is in the filter string. */
  lemma CleanFullWidthBang()
    ensures Clean("  ！  ") == "！"
  {
    NonAsciiKept('！');
    assert "  ！  " == "  " + ['！'] + "  ";
    CleanSingleKept("  ", '！', "  ");
  }

  /** Every kept character of the surface is in the cleaned word, and the word
      is the surface with characters deleted, never reordered. */
  lemma CleanKeeps(surface: string)
    ensures forall i :: 0 <= i < |surface| && Kept(surface[i]) ==> surface[i] in Clean(surface)
    ensures IsSubsequence(Clean(surface), surface)
  {
    CleanIsFilter(surface);
    FilterIsSubsequence(surface, Kept);
  }

  /** Cleaning a cleaned word changes nothing. */
  lemma CleanIdempotent(surface: string)
    ensures Clean(Clean(surface)) == Clean(surface)
  {
    CleanIsFilter(surface);
    CleanIsFilter(Clean(surface));
    FilterIdempotent(surface, Kept);
  }

  /** The words of a sentence: each surface cleaned, the empty results dropped, in node order. */
  function SentenceWords(surfaces: seq<string>): (words: seq<string>)
    ensures |words| <= |surfaces|
    ensures forall i :: 0 <= i < |words| ==>
              |words[i]| >= 1 && forall k :: 0 <= k < |words[i]| ==> Kept(words[i][k])
  {
    if surfaces == [] then []
    else
      var words := SentenceWords(surfaces[..|surfaces| - 1]);
      var w := Clean(surfaces[|surfaces| - 1]);
      if |w| >= 1 then words + [w] else words
  }

  predicate NonEmpty(w: string)
  {
    |w| >= 1
  }

  /** The cleaned surfaces, one per node, before empty words are dropped. */
  function CleanAll(surfaces: seq<string>): (ws: seq<string>)
    ensures |ws| == |surfaces|
    ensures forall i :: 0 <= i < |surfaces| ==> ws[i] == Clean(surfaces[i])
  {
    seq(|surfaces|, i requires 0 <= i < |surfaces| => Clean(surfaces[i]))
  }

  /** The words are exactly the non-empty cleaned surfaces, in node order. */
  lemma {:induction false} SentenceWordsIsFilter(surfaces: seq<string>)
    ensures SentenceWords(surfaces) == Filter(CleanAll(surfaces), NonEmpty)
  {
    if surfaces != [] {
      var init := surfaces[..|surfaces| - 1];
      var w := Clean(surfaces[|surfaces| - 1]);
      SentenceWordsIsFilter(init);
      CleanAllSnoc(surfaces);
      FilterAppend(CleanAll(init), [w], NonEmpty);
      FilterSingle(w, NonEmpty);
    }
  }

  lemma CleanAllSnoc(surfaces: seq<string>)
    requires surfaces != []
    ensures CleanAll(surfaces) == CleanAll(surfaces[..|surfaces| - 1]) + [Clean(surfaces[|surfaces| - 1])]
  {
  }

  /** Cleaning one surface: strips whitespace, then removes each filter character in turn. */
  method CleanSurface(surface: string) returns (word: string)
    ensures word == Clean(surface)
  {
    var stripped := Filter(surface, NotWhitespace);
    word := RemoveInTurn(stripped, FilterStr);
  }

  /** Deletes every occurrence of each character of `cs` from `w`, one character after another. */
  method RemoveInTurn(w: string, cs: string) returns (word: string)
    ensures word == RemoveEach(w, cs)
  {
    word := w;
    for k := 0 to |cs|
      invariant word == RemoveEach(w, cs[..k])
    {
      assert cs[..k + 1][..k] == cs[..k];
      word := RemoveChar(word, cs[k]);
    }
    assert cs[..|cs|] == cs;
  }

  /** Parsing a sentence: walks the node surfaces in order, cleans each and
      keeps the non-empty words. */
  method ParseSentence(surfaces: seq<string>) returns (words: seq<string>)
    ensures words == SentenceWords(surfaces)
  {
    words := [];
    var i := 0;
    while i < |surfaces|
      invariant 0 <= i <= |surfaces|
      invariant words == SentenceWords(surfaces[..i])
    {
      var word := CleanSurface(surfaces[i]);
      if |word| >= 1 {
        words := words + [word];
      }
      assert surfaces[..i + 1][..i] == surfaces[..i];
      i := i + 1;
    }
    assert surfaces[..|surfaces|] == surfaces;
  }
}
