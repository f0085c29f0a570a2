/** Turning an uploaded file into a book record (dispatch on the extension,
    the title of a text file, the per-book directory) and the counts of the
    book report. */
module BookUtils {
  import opened Wrappers
  import opened Strings
  import opened Analysis
  import opened FrequencyLists

  /** The book record: where its text is, its title, authors, cover image,
      content hash and directory. */
  datatype Book = Book(path: string, title: string, authors: seq<string>, image: string, fileHash: string, bookDir: string)

  /** What the epub metadata reader reports about a book. */
  datatype EpubMetadata = EpubMetadata(title: string, authors: seq<string>, coverImageContent: string)

  /** The text after the last '.', or the whole name when it has no '.'. */
  function Extension(filename: string): (r: string)
    ensures '.' !in r
    ensures |r| <= |filename|
  {
    var r := LastPiece(filename, '.');
    JoinSplit(filename, '.');
    LastPieceLength(Split(filename, '.'), ".");
    r
  }

  lemma {:induction false} LastPieceLength(parts: seq<string>, sep: string)
    requires |parts| >= 1
    ensures |parts[|parts| - 1]| <= |Join(parts, sep)|
  {
    if |parts| > 1 {
      LastPieceLength(parts[1..], sep);
    }
  }

  /** The extension of `stem.ext` is `ext`, and a name without a dot is its own extension. */
  lemma ExtensionOf(stem: string, ext: string)
    requires '.' !in ext
    ensures Extension(stem + "." + ext) == ext
    ensures '.' !in stem ==> Extension(stem) == stem
  {
    SplitAround(stem, ext, '.');
    SplitWithoutSeparator(ext, '.');
    assert stem + "." + ext == stem + ['.'] + ext;
    if '.' !in stem {
      SplitWithoutSeparator(stem, '.');
    }
  }

  const BooksDir: string := "static/books/"

  /** The directory of the book whose content hash is `fileHash`. */
  function BookDir(fileHash: string): (d: string)
    ensures |d| == |BooksDir| + |fileHash|
    ensures d[..|BooksDir|] == BooksDir && d[|BooksDir|..] == fileHash
  {
    BooksDir + fileHash
  }

  /** Different hashes give different directories, and the hash can be read back from the directory. */
  lemma BookDirInjective(h1: string, h2: string)
    ensures BookDir(h1)[|BooksDir|..] == h1
    ensures BookDir(h1) == BookDir(h2) <==> h1 == h2
  {
    if BookDir(h1) == BookDir(h2) {
      assert BookDir(h1)[|BooksDir|..] == h1;
      assert BookDir(h2)[|BooksDir|..] == h2;
    }
  }

  /** The record of a text file: the title is the last path segment with
      every occurrence of '.' followed by the extension deleted; no authors
      and no cover image. */
  function ProcessTxt(filename: string, bookDir: string, fileHash: string): (b: Book)
    ensures b.path == filename && b.authors == [] && b.image == ""
    ensures b.fileHash == fileHash && b.bookDir == bookDir
    ensures '/' !in b.title
  {
    var base := LastPiece(filename, '/');
    var title := Replace(base, "." + Extension(filename), "");
    assert forall i :: 0 <= i < |title| ==> title[i] in base;
    Book(filename, title, [], "", fileHash, bookDir)
  }

  /** For a path `dir/stem.ext` whose stem holds no '.', the title is the stem. */
  lemma TxtTitle(dir: string, stem: string, ext: string, bookDir: string, fileHash: string)
    requires '/' !in stem && '.' !in stem
    requires '/' !in ext && '.' !in ext
    ensures ProcessTxt(dir + "/" + stem + "." + ext, bookDir, fileHash).title == stem
  {
    var pat := "." + ext;
    var name := stem + pat;
    var filename := dir + "/" + stem + "." + ext;
    assert filename == dir + ['/'] + name;
    LastPieceAfter(dir, name, '/');
    assert filename == (dir + "/" + stem) + "." + ext;
    ExtensionOf(dir + "/" + stem, ext);
    DropSuffix(stem, pat);
    assert ProcessTxt(filename, bookDir, fileHash).title == Replace(name, pat, "");
  }

  /** Deleting a pattern that starts with a character absent from `stem`
      from `stem + pat` leaves `stem`. */
  lemma DropSuffix(stem: string, pat: string)
    requires |pat| > 0 && pat[0] !in stem
    ensures Replace(stem + pat, pat, "") == stem
  {
    ReplaceSkip(stem, pat, pat, "");
    ReplaceFront(pat, "", "");
    assert pat + "" == pat && stem + "" == stem;
  }

  /** The record of an epub file: metadata from the furigana-free copy in
      the book directory, the cover saved beside it, and the text converted
      from that copy. */
  function ProcessEpub(filename: string, bookDir: string, fileHash: string, meta: EpubMetadata): (b: Book)
    ensures b.title == meta.title && b.authors == meta.authors
    ensures b.fileHash == fileHash && b.bookDir == bookDir
  {
    var bookPath := bookDir + "/no-furigana.epub";
    Book(Replace(bookPath, ".epub", ".txt"), meta.title, meta.authors, bookDir + "/cover-image.jpg", fileHash, bookDir)
  }

  /** With a dot-free directory, the converted text is `no-furigana.txt` in the book directory. */
  lemma EpubPaths(filename: string, bookDir: string, fileHash: string, meta: EpubMetadata)
    requires '.' !in bookDir
    ensures ProcessEpub(filename, bookDir, fileHash, meta).path == bookDir + "/no-furigana.txt"
    ensures ProcessEpub(filename, bookDir, fileHash, meta).image == bookDir + "/cover-image.jpg"
  {
    var x := bookDir + "/no-furigana";
    assert '.' !in x;
    assert bookDir + "/no-furigana.epub" == x + ".epub";
    ReplaceSkip(x, ".epub", ".epub", ".txt");
    ReplaceFront(".epub", "", ".txt");
    assert ".epub" + "" == ".epub" && ".txt" + "" == ".txt";
  }

  /** `process_file`: an epub or a text file becomes a book record in the
      directory named by its hash; any other extension raises ValueError. */
  function ProcessFile(filename: string, fileHash: string, meta: EpubMetadata): (r: Result<Book>)
    ensures r.Err? <==> Extension(filename) != "epub" && Extension(filename) != "txt"
    ensures r.Err? ==> r.error == ValueError
    ensures r.Ok? ==> r.value.fileHash == fileHash && r.value.bookDir == BookDir(fileHash)
    ensures Extension(filename) == "txt" ==> r == Ok(ProcessTxt(filename, BookDir(fileHash), fileHash))
    ensures Extension(filename) == "epub" ==> r == Ok(ProcessEpub(filename, BookDir(fileHash), fileHash, meta))
  {
    var ext := Extension(filename);
    var bookDir := BookDir(fileHash);
    if ext == "epub" then Ok(ProcessEpub(filename, bookDir, fileHash, meta))
    else if ext == "txt" then Ok(ProcessTxt(filename, bookDir, fileHash))
    else Err(ValueError)
  }

  /** The counts and tables of the book report; the known-word figures are not part of this model. */
  datatype BookReport = BookReport(
    title: string, authors: seq<string>, image: string, histogram: string,
    nWords: nat, nWordsUnique: nat, nWordsUsedOnce: nat,
    nChars: nat, nCharsUnique: nat, nCharsUsedOnce: nat,
    words: seq<(string, nat)>, chars: seq<CharEntry>, fileHash: string)

  /** The report of a book from its character and word analyses: the
      book's own fields, the sizes of the analyses' collections and their
      tables. */
  function Report(book: Book, histogram: string, chars: CharAnalysis, words: WordAnalysis): (rep: BookReport)
    ensures rep.title == book.title && rep.authors == book.authors && rep.image == book.image
    ensures rep.fileHash == book.fileHash && rep.histogram == histogram
    ensures rep.nWords == |words.all| && rep.nWordsUnique == |words.unique| && rep.nWordsUsedOnce == |words.usedOnce|
    ensures rep.nChars == |chars.all| && rep.nCharsUnique == |chars.unique| && rep.nCharsUsedOnce == |chars.usedOnce|
    ensures rep.words == words.withUses && rep.chars == chars.withUses
  {
    BookReport(book.title, book.authors, book.image, histogram,
      |words.all|, |words.unique|, |words.usedOnce|,
      |chars.all|, |chars.unique|, |chars.usedOnce|,
      words.withUses, chars.withUses, book.fileHash)
  }

  /** With the character analysis of the book's text, as written: the
      character count is the text's length and the distinct count its
      number of distinct characters, but the used-once count equals the
      distinct count; the table adds up to the length. */
  lemma ReportCharCounts(book: Book, histogram: string, text: string, words: WordAnalysis)
    ensures var rep := Report(book, histogram, AnalyseChars(text), words);
      && rep.nChars == |text|
      && rep.nCharsUnique == |set c | c in text|
      && rep.nCharsUsedOnce == rep.nCharsUnique
      && rep.nCharsUnique <= rep.nChars
      && TotalOccurences(rep.chars) == rep.nChars
      && rep.fileHash == book.fileHash && rep.title == book.title
  {
    CharCounts(text);
    SameCharTable(text);
    CharTableOrder(text);
  }

  /** The same report over the corrected character analysis: the used-once
      count is then at most the distinct count. */
  lemma ReportCharCountsCorrected(book: Book, histogram: string, text: string, words: WordAnalysis)
    ensures var rep := Report(book, histogram, AnalyseCharsCorrected(text), words);
      && rep.nChars == |text|
      && rep.nCharsUnique == |set c | c in text|
      && rep.nCharsUsedOnce <= rep.nCharsUnique <= rep.nChars
      && TotalOccurences(rep.chars) == rep.nChars
      && rep.fileHash == book.fileHash && rep.title == book.title
  {
    CharCounts(text);
    SameCharTable(text);
    CharTableOrder(text);
  }

  /** `analyse_ebook`: the file is processed (ValueError for an unknown
      extension), then every list file is loaded (the first failing file's
      error), and then the word analysis is called with three arguments
      though it takes one, which raises TypeError. `files` are the list
      files with their contents. */
  function AnalyseEbook(filename: string, fileHash: string, meta: EpubMetadata,
                        files: seq<(string, seq<Triple>)>): (r: Result<BookReport>)
    ensures r.Err?
    ensures ProcessFile(filename, fileHash, meta).Err? ==> r.error == ValueError
    ensures ProcessFile(filename, fileHash, meta).Ok? ==>
              (r.error == TypeError <==> forall i :: 0 <= i < |files| ==> LoadList(files[i].0, files[i].1).Ok?)
    ensures ProcessFile(filename, fileHash, meta).Ok? && r.error != TypeError ==>
              exists i :: 0 <= i < |files| && LoadList(files[i].0, files[i].1) == Err(r.error) &&
                forall k :: 0 <= k < i ==> LoadList(files[k].0, files[k].1).Ok?
  {
    var book := ProcessFile(filename, fileHash, meta);
    if book.Err? then Err(book.error)
    else
      var lists := LoadAll(files);
      if lists.Err? then
        assert exists i :: 0 <= i < |files| && LoadList(files[i].0, files[i].1) == Err(lists.error) &&
                 forall k :: 0 <= k < i ==> LoadList(files[k].0, files[k].1).Ok? by {
          var i := LoadAllFirstError(files);
        }
        Err(lists.error)
      else Err(TypeError)
  }
}
