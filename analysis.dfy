/** Character statistics of a text, and the word-statistics stub. */
module Analysis {
  import opened Wrappers
  import opened Tally

  /** One row of the character table: `{"character": c, "occurences": n}`. */
  datatype CharEntry = CharEntry(character: char, occurences: nat)

  /** The characters of a text in order, its distinct characters, the
      occurrence table and the characters reported as used once. */
  datatype CharAnalysis = CharAnalysis(all: seq<char>, unique: set<char>, withUses: seq<CharEntry>, usedOnce: set<char>)

  /** The fields the book report reads from a word analysis. */
  datatype WordAnalysis = WordAnalysis(all: seq<string>, unique: set<string>, withUses: seq<(string, nat)>, usedOnce: seq<string>)

  /** The occurrence table with its pairs written as character rows. */
  function CharEntries(t: seq<(char, nat)>): (rows: seq<CharEntry>)
    ensures |rows| == |t|
    ensures forall i :: 0 <= i < |t| ==> rows[i].character == t[i].0 && rows[i].occurences == t[i].1
  {
    seq(|t|, i requires 0 <= i < |t| => CharEntry(t[i].0, t[i].1))
  }

  /** The sum of the occurrence column. */
  function TotalOccurences(rows: seq<CharEntry>): nat
  {
    if rows == [] then 0 else rows[0].occurences + TotalOccurences(rows[1..])
  }

  lemma {:induction false} TotalOfCharEntries(t: seq<(char, nat)>)
    ensures TotalOccurences(CharEntries(t)) == SumCounts(t)
  {
    if t != [] {
      assert CharEntries(t)[1..] == CharEntries(t[1..]);
      TotalOfCharEntries(t[1..]);
    }
  }

  /** `analyse_chars` as written: the used-once set is built from every row
      of the table, with no test of the count, so it is the set of all
      distinct characters. */
  function AnalyseChars(text: string): (r: CharAnalysis)
    ensures r.all == text && |r.all| == |text|
    ensures r.unique == set c | c in text
    ensures r.usedOnce == r.unique
  {
    var rows := CharEntries(WithUses(text));
    WithUsesCovers(text);
    CharAnalysis(text, (set c | c in text), rows, (set i | 0 <= i < |rows| :: rows[i].character))
  }

  /** The character statistics with the count test the used-once set is
      evidently meant to have, as the later revision of the book analysis
      applies it. */
  function AnalyseCharsCorrected(text: string): (r: CharAnalysis)
    ensures r.all == text
    ensures r.unique == set c | c in text
    ensures forall c :: c in r.usedOnce <==> c in text && multiset(text)[c] == 1
    ensures r.usedOnce <= r.unique
  {
    var t := WithUses(text);
    forall c ensures c in UsedOnce(t) <==> c in text && multiset(text)[c] == 1 {
      WithUsesUsedOnce(text, c);
    }
    CharAnalysis(text, (set c | c in text), CharEntries(t), (set c | c in UsedOnce(t)))
  }

  /** Both versions build the same occurrence table. */
  lemma SameCharTable(text: string)
    ensures AnalyseChars(text).withUses == AnalyseCharsCorrected(text).withUses == CharEntries(WithUses(text))
  {
  }

  /** The table has one row per distinct character, holding that
      character's multiplicity in the text. */
  lemma CharTableRows(text: string)
    ensures var rows := CharEntries(WithUses(text));
      && |rows| == |set c | c in text|
      && (forall i :: 0 <= i < |rows| ==> rows[i].character in text && rows[i].occurences == multiset(text)[rows[i].character])
      && (forall c :: c in text ==> exists i :: 0 <= i < |rows| && rows[i].character == c)
      && (forall i, j :: 0 <= i < j < |rows| ==> rows[i].character != rows[j].character)
  {
    var t := WithUses(text);
    var rows := CharEntries(t);
    WithUsesShape(text);
    WithUsesCovers(text);
    assert DistinctValues(t);
    forall i | 0 <= i < |rows|
      ensures rows[i].character in text && rows[i].occurences == multiset(text)[rows[i].character]
    {
      assert rows[i].character == t[i].0 && rows[i].occurences == t[i].1;
    }
    forall i, j | 0 <= i < j < |rows| ensures rows[i].character != rows[j].character {
      assert t[i].0 != t[j].0;
    }
    forall c | c in text ensures exists i :: 0 <= i < |rows| && rows[i].character == c {
      var i :| 0 <= i < |t| && t[i].0 == c;
      assert rows[i].character == c;
    }
  }

  /** The rows are ordered by count, largest first, and the counts add up
      to the length of the text. */
  lemma CharTableOrder(text: string)
    ensures var rows := CharEntries(WithUses(text));
      && (forall i, j :: 0 <= i < j < |rows| ==> rows[i].occurences >= rows[j].occurences)
      && TotalOccurences(rows) == |text|
  {
    WithUsesShape(text);
    TotalOfCharEntries(WithUses(text));
  }

  /** The flaw in the as-written version: in "aa" the character 'a' occurs
      twice and is still reported as used once; the corrected version does
      not report it. */
  lemma AnalyseCharsReportsRepeatedChar()
    ensures multiset("aa")['a'] == 2
    ensures 'a' in AnalyseChars("aa").usedOnce
    ensures 'a' !in AnalyseCharsCorrected("aa").usedOnce
  {
    assert "aa"[0] == 'a';
  }

  /** As written, the used-once set is every distinct character; the
      corrected set holds no character that occurs more than once, and
      neither is larger than the set of distinct characters, which is no
      larger than the text. */
  lemma CharCounts(text: string)
    ensures |AnalyseChars(text).usedOnce| == |AnalyseChars(text).unique|
    ensures |AnalyseCharsCorrected(text).usedOnce| <= |AnalyseCharsCorrected(text).unique| <= |text|
  {
    WithUsesShape(text);
    var r := AnalyseCharsCorrected(text);
    assert r.usedOnce <= r.unique;
    SubsetCardinality(r.usedOnce, r.unique);
  }

  lemma SubsetCardinality<T>(a: set<T>, b: set<T>)
    requires a <= b
    ensures |a| <= |b|
  {
    assert b == a + (b - a);
  }

  /** `analyse_words` is a stub: it raises for every text. */
  function AnalyseWords(text: string): (r: Result<WordAnalysis>)
    ensures r.Err? && r.error == NotImplementedError
  {
    Err(NotImplementedError)
  }
}
