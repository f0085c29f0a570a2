/** The single-pass book analysis: metadata chosen by the file's extension,
    then word and character statistics gathered into the book data. */
module BookStats {
  import opened Wrappers
  import opened Tally
  import opened Analysis
  import opened BookUtils
  import opened Utils

  /** The authors field: the epub reader gives a list, a text file gets the empty text. */
  datatype Authors = AuthorList(names: seq<string>) | AuthorText(text: string)

  /** The metadata dictionary: title, authors and cover image content. */
  datatype Metadata = Metadata(title: string, authors: Authors, coverImageContent: string)

  /** One row of the word table: `{"word": w, "ocurrences": n}`. */
  datatype WordEntry = WordEntry(word: string, ocurrences: nat)

  /** The book data written out for a book. */
  datatype BookData = BookData(
    title: string, authors: Authors, image: string,
    nWords: nat, nWordsUnique: nat, nWordsUsedOnce: nat,
    nChars: nat, nCharsUnique: nat, nCharsUsedOnce: nat,
    words: seq<WordEntry>, chars: seq<CharEntry>, fileHash: string)

  /** The metadata by extension: the epub reader's for an epub, the fallback
      title with empty authors and cover for a text file, and for any other
      extension the lookup of 'title' in an empty dictionary raises KeyError. */
  function BookMetadata(extension: string, fallbackTitle: string, epub: Metadata): (r: Result<Metadata>)
    ensures r.Err? <==> extension != "epub" && extension != "txt"
    ensures r.Err? ==> r.error == KeyError
    ensures extension == "txt" ==> r == Ok(Metadata(fallbackTitle, AuthorText(""), ""))
    ensures extension == "epub" ==> r == Ok(epub)
  {
    if extension == "epub" then Ok(epub)
    else if extension == "txt" then Ok(Metadata(fallbackTitle, AuthorText(""), ""))
    else Err(KeyError)
  }

  /** The cover image path: saved into the book directory for an epub, none for a text file. */
  function ImagePath(extension: string, bookDir: string): (p: string)
    ensures extension == "epub" ==> p == bookDir + "/musume.jpg"
    ensures extension != "epub" ==> p == ""
  {
    if extension == "epub" then bookDir + "/musume.jpg" else ""
  }

  /** The word table rows, in table order. */
  function WordEntries(t: seq<(string, nat)>): (rows: seq<WordEntry>)
    ensures |rows| == |t|
    ensures forall i :: 0 <= i < |t| ==> rows[i].word == t[i].0 && rows[i].ocurrences == t[i].1
  {
    seq(|t|, i requires 0 <= i < |t| => WordEntry(t[i].0, t[i].1))
  }

  /** The statistics of a book: `words` are the words the tagger's nodes
      give for `text`; each table pairs a distinct value with its count,
      largest count first, and the used-once lists keep the values of count 1. */
  function Statistics(meta: Metadata, image: string, text: string, words: seq<string>, fileHash: string): (d: BookData)
    ensures d.title == meta.title && d.authors == meta.authors && d.image == image && d.fileHash == fileHash
    ensures d.nWords == |words| && d.nChars == |text|
    ensures d.nWordsUsedOnce <= d.nWordsUnique <= d.nWords && |d.words| == d.nWordsUnique
    ensures d.nCharsUsedOnce <= d.nCharsUnique <= d.nChars && |d.chars| == d.nCharsUnique
  {
    WithUsesShape(text);
    WithUsesShape(words);
    var charsWithUses := WithUses(text);
    var charsUsedOnce := UsedOnce(charsWithUses);
    var wordsWithUses := WithUses(words);
    var usedOnce := UsedOnce(wordsWithUses);
    BookData(meta.title, meta.authors, image,
      |words|, |set w | w in words|, |usedOnce|,
      |text|, |set c | c in text|, |charsUsedOnce|,
      WordEntries(wordsWithUses), CharEntries(charsWithUses), fileHash)
  }

  /** `analyse_ebook` of book.py, with the file's text, the surfaces the
      tagger gives for it, the epub reader's metadata and the content hash
      as inputs. */
  function AnalyseEbook(filename: string, fallbackTitle: string, epub: Metadata, fileHash: string,
                        text: string, surfaces: seq<string>): (r: Result<BookData>)
    ensures r.Err? <==> Extension(filename) != "epub" && Extension(filename) != "txt"
    ensures r.Ok? ==> r.value.fileHash == fileHash && r.value.nChars == |text|
  {
    var extension := Extension(filename);
    var meta := BookMetadata(extension, fallbackTitle, epub);
    if meta.Err? then Err(meta.error)
    else Ok(Statistics(meta.value, ImagePath(extension, BookDir(fileHash)), text, SentenceWords(surfaces), fileHash))
  }

  /** A text file is titled with the fallback title and has no authors and no cover. */
  lemma AnalyseTxt(stem: string, fallbackTitle: string, epub: Metadata, fileHash: string, text: string, surfaces: seq<string>)
    ensures var r := AnalyseEbook(stem + ".txt", fallbackTitle, epub, fileHash, text, surfaces);
      && r.Ok?
      && r.value.title == fallbackTitle && r.value.authors == AuthorText("") && r.value.image == ""
      && r.value.nWords == |SentenceWords(surfaces)|
  {
    ExtensionOf(stem, "txt");
    assert stem + ".txt" == stem + "." + "txt";
    assert "txt"[0] != "epub"[0];
  }

  /** The word table: one row per distinct word with its count, rows in
      decreasing order of count, counts adding up to the number of words;
      and the word counts are ordered used-once <= distinct <= all. */
  lemma WordTable(meta: Metadata, image: string, text: string, words: seq<string>, fileHash: string)
    ensures var d := Statistics(meta, image, text, words, fileHash);
      && d.nWords == |words|
      && d.nWordsUsedOnce <= d.nWordsUnique <= d.nWords
      && |d.words| == d.nWordsUnique
      && (forall i :: 0 <= i < |d.words| ==> d.words[i].word in words && d.words[i].ocurrences == multiset(words)[d.words[i].word])
      && (forall i, j :: 0 <= i < j < |d.words| ==> d.words[i].word != d.words[j].word)
      && (forall i, j :: 0 <= i < j < |d.words| ==> d.words[i].ocurrences >= d.words[j].ocurrences)
      && (forall w :: w in words ==> exists i :: 0 <= i < |d.words| && d.words[i].word == w)
  {
    var t := WithUses(words);
    var rows := WordEntries(t);
    WithUsesShape(words);
    WithUsesCovers(words);
    forall i | 0 <= i < |rows|
      ensures rows[i].word in words && rows[i].ocurrences == multiset(words)[rows[i].word]
    {
      assert rows[i].word == t[i].0 && rows[i].ocurrences == t[i].1;
    }
    forall i, j | 0 <= i < j < |rows|
      ensures rows[i].word != rows[j].word && rows[i].ocurrences >= rows[j].ocurrences
    {
      assert t[i].0 != t[j].0 && t[i].1 >= t[j].1;
    }
    forall w | w in words ensures exists i :: 0 <= i < |rows| && rows[i].word == w {
      var i :| 0 <= i < |t| && t[i].0 == w;
      assert rows[i].word == w;
    }
  }

  /** The word table's counts add up to the number of words, and the
      used-once count is the number of distinct words that occur once. */
  lemma WordTotals(meta: Metadata, image: string, text: string, words: seq<string>, fileHash: string)
    ensures var d := Statistics(meta, image, text, words, fileHash);
      && SumCounts(WithUses(words)) == d.nWords
      && d.words == WordEntries(WithUses(words))
      && d.nWordsUsedOnce == |UsedOnce(WithUses(words))|
      && forall w :: w in UsedOnce(WithUses(words)) <==> w in words && multiset(words)[w] == 1
  {
    WithUsesShape(words);
    forall w ensures w in UsedOnce(WithUses(words)) <==> w in words && multiset(words)[w] == 1 {
      WithUsesUsedOnce(words, w);
    }
  }

  /** The character table is the analysis's table, and the character counts
      are ordered used-once <= distinct <= all, with the used-once list
      holding exactly the characters that occur once. */
  lemma CharTotals(meta: Metadata, image: string, text: string, words: seq<string>, fileHash: string)
    ensures var d := Statistics(meta, image, text, words, fileHash);
      && d.chars == AnalyseCharsCorrected(text).withUses
      && d.nChars == |text|
      && d.nCharsUsedOnce == |UsedOnce(WithUses(text))|
      && d.nCharsUsedOnce <= d.nCharsUnique <= d.nChars
      && TotalOccurences(d.chars) == d.nChars
      && forall c :: c in UsedOnce(WithUses(text)) <==> c in text && multiset(text)[c] == 1
  {
    WithUsesShape(text);
    CharTableOrder(text);
    forall c ensures c in UsedOnce(WithUses(text)) <==> c in text && multiset(text)[c] == 1 {
      WithUsesUsedOnce(text, c);
    }
  }
}
