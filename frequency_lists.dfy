/** Frequency reference lists: star ratings from ranks, loading a list from
    its (word, marker, descriptor) triples, looking a word up in every list,
    and combining the ranks into an overall rank by a harmonic mean. */
module FrequencyLists {
  import opened Wrappers
  import opened Strings
  import opened Numerals
  import opened Dicts

  /** A word's rank in one list (1 = most frequent) and its star rating. */
  datatype Word = Word(frequency: int, stars: int)

  /** One reference list: its name and its words. */
  datatype FrequencyList = FrequencyList(name: string, words: map<string, Word>)

  /** A value of a word's frequency profile: a ranked entry, or the text
      'N/A' that the overall entry takes when no list knows the word. */
  datatype Frequency = Ranked(word: Word) | NotApplicable

  /** One element of a list file: the word, a marker, and a descriptor such
      as "★★★★★ (1)" that embeds the rank. */
  datatype Triple = Triple(word: string, marker: string, descriptor: string)

  // ---------------------------------------------------------------------
  // Stars
  // ---------------------------------------------------------------------

  /** The star rating of a rank; ValueError for a rank below 1. */
  function StarsFromFrequency(freq: int): (r: Result<int>)
    ensures r.Err? <==> freq < 1
    ensures r.Err? ==> r.error == ValueError
    ensures r.Ok? ==> 0 <= r.value <= 5
  {
    if 1 <= freq <= 1500 then Ok(5)
    else if 1501 <= freq <= 5000 then Ok(4)
    else if 5001 <= freq <= 15000 then Ok(3)
    else if 15001 <= freq <= 30000 then Ok(2)
    else if 30001 <= freq <= 60000 then Ok(1)
    else if 60001 <= freq then Ok(0)
    else Err(ValueError)
  }

  /** The bands, lowest rank of each band included. */
  lemma StarsBands(freq: int)
    requires freq >= 1
    ensures StarsFromFrequency(freq).value == 5 <==> freq <= 1500
    ensures StarsFromFrequency(freq).value == 4 <==> 1501 <= freq <= 5000
    ensures StarsFromFrequency(freq).value == 3 <==> 5001 <= freq <= 15000
    ensures StarsFromFrequency(freq).value == 2 <==> 15001 <= freq <= 30000
    ensures StarsFromFrequency(freq).value == 1 <==> 30001 <= freq <= 60000
    ensures StarsFromFrequency(freq).value == 0 <==> 60001 <= freq
  {
  }

  /** A rarer word never gets more stars. */
  lemma StarsMonotone(a: int, b: int)
    requires 1 <= a <= b
    ensures StarsFromFrequency(a).value >= StarsFromFrequency(b).value
  {
  }

  // ---------------------------------------------------------------------
  // Overall frequency
  // ---------------------------------------------------------------------

  /** Python's `round` on an exact real: the nearest integer, ties to the
      even neighbour. */
  function RoundHalfEven(x: real): (n: int)
    ensures (n as real) - 0.5 <= x <= (n as real) + 0.5
    ensures (x == (n as real) - 0.5 || x == (n as real) + 0.5) ==> n % 2 == 0
  {
    var f := x.Floor;
    var d := x - f as real;
    if d < 0.5 then f
    else if d > 0.5 then f + 1
    else if f % 2 == 0 then f
    else f + 1
  }

  /** Rounding a value between two integers stays between them. */
  lemma RoundBetween(x: real, lo: int, hi: int)
    requires lo as real <= x <= hi as real
    ensures lo <= RoundHalfEven(x) <= hi
  {
  }

  predicate NoZeroFrequency(ws: seq<Word>)
  {
    forall i :: 0 <= i < |ws| ==> ws[i].frequency != 0
  }

  /** The sum of `1 / frequency` over `ws`. */
  function Reciprocals(ws: seq<Word>): real
    requires NoZeroFrequency(ws)
  {
    if ws == [] then 0.0 else 1.0 / (ws[0].frequency as real) + Reciprocals(ws[1..])
  }

  /** `len(ws) / sum(1 / f)`, the harmonic mean of the ranks. */
  function HarmonicMean(ws: seq<Word>): real
    requires NoZeroFrequency(ws) && Reciprocals(ws) != 0.0
  {
    1.0 / Reciprocals(ws) * (|ws| as real)
  }

  /** The overall entry for the given per-list entries: 'N/A' when the sum
      of reciprocals is 0, otherwise the rounded harmonic mean of the ranks
      with its stars. A zero rank raises ZeroDivisionError; a mean that
      rounds below 1 makes the star rating raise ValueError. */
  function GetOverallFrequency(ws: seq<Word>): (r: Result<Frequency>)
    ensures r == Err(ZeroDivisionError) <==> !NoZeroFrequency(ws)
    ensures r.Err? ==> r.error == ZeroDivisionError || r.error == ValueError
    ensures r.Ok? && r.value.Ranked? ==>
              r.value.word.frequency >= 1 &&
              StarsFromFrequency(r.value.word.frequency) == Ok(r.value.word.stars)
  {
    if !NoZeroFrequency(ws) then Err(ZeroDivisionError)
    else
      var total := Reciprocals(ws);
      if total == 0.0 then Ok(NotApplicable)
      else
        var overall := RoundHalfEven(HarmonicMean(ws));
        match StarsFromFrequency(overall)
        case Err(e) => Err(e)
        case Ok(stars) => Ok(Ranked(Word(overall, stars)))
  }

  /** No list matched: the overall entry is 'N/A'. */
  lemma OverallOfNothing()
    ensures GetOverallFrequency([]) == Ok(NotApplicable)
  {
  }

  /** `a / b` is at least 1 when `a >= b > 0`, and at most 1 when `0 < a <= b`. */
  lemma RatioAgainstOne(a: real, b: real)
    requires a > 0.0 && b > 0.0
    ensures a >= b ==> a * (1.0 / b) >= 1.0
    ensures a <= b ==> a * (1.0 / b) <= 1.0
  {
    var q := 1.0 / b;
    assert q > 0.0;
    assert b * q == 1.0;
    assert a * q - 1.0 == (a - b) * q;
  }

  /** `n / hi <= total <= n / lo`, written without division. */
  predicate Brackets(total: real, n: nat, lo: int, hi: int)
  {
    total * (hi as real) >= n as real && total * (lo as real) <= n as real
  }

  /** With every rank in `lo..hi`, the sum `R` of reciprocals of `n` ranks
      satisfies `n/hi <= R <= n/lo`. */
  lemma {:induction false} ReciprocalsBounds(ws: seq<Word>, lo: int, hi: int)
    requires 1 <= lo <= hi
    requires forall i :: 0 <= i < |ws| ==> lo <= ws[i].frequency <= hi
    ensures NoZeroFrequency(ws)
    ensures Brackets(Reciprocals(ws), |ws|, lo, hi)
  {
    if ws != [] {
      ReciprocalsBounds(ws[1..], lo, hi);
      ReciprocalStep(ws[0].frequency, Reciprocals(ws[1..]), Reciprocals(ws), |ws[1..]|, lo, hi);
    }
  }

  /** Adding `1 / f` for a rank `f` in `lo..hi` keeps both bounds, one entry further. */
  lemma ReciprocalStep(f: int, tail: real, total: real, n: nat, lo: int, hi: int)
    requires 1 <= lo <= f <= hi
    requires Brackets(tail, n, lo, hi)
    requires total == 1.0 / (f as real) + tail
    ensures Brackets(total, n + 1, lo, hi)
  {
    var q := 1.0 / (f as real);
    RatioAgainstOne(hi as real, f as real);
    RatioAgainstOne(lo as real, f as real);
    assert total * (hi as real) == (hi as real) * q + tail * (hi as real);
    assert total * (lo as real) == (lo as real) * q + tail * (lo as real);
  }

  /** `n / total` lies in `lo..hi` when `total * hi >= n` and `total * lo <= n`. */
  lemma MeanBetween(total: real, n: nat, lo: int, hi: int)
    requires 1 <= lo <= hi && n > 0
    requires Brackets(total, n, lo, hi)
    ensures total > 0.0
    ensures lo as real <= 1.0 / total * (n as real) <= hi as real
  {
    assert total > 0.0 by {
      assert total * (hi as real) > 0.0;
    }
    var m := 1.0 / total * (n as real);
    assert m * total == n as real;
    assert hi as real - m == (total * (hi as real) - n as real) * (1.0 / total);
    assert m - lo as real == (n as real - total * (lo as real)) * (1.0 / total);
  }

  /** The harmonic mean is a mean: with at least one entry and all ranks in
      `lo..hi` (`lo >= 1`), the overall rank is in `lo..hi` and nothing
      fails. */
  lemma {:induction false} OverallBetween(ws: seq<Word>, lo: int, hi: int)
    requires ws != []
    requires 1 <= lo <= hi
    requires forall i :: 0 <= i < |ws| ==> lo <= ws[i].frequency <= hi
    ensures GetOverallFrequency(ws).Ok? && GetOverallFrequency(ws).value.Ranked?
    ensures lo <= GetOverallFrequency(ws).value.word.frequency <= hi
  {
    HarmonicMeanBetween(ws, lo, hi);
    RoundBetween(HarmonicMean(ws), lo, hi);
    OverallOfPositiveMean(ws);
  }

  lemma {:induction false} HarmonicMeanBetween(ws: seq<Word>, lo: int, hi: int)
    requires ws != []
    requires 1 <= lo <= hi
    requires forall i :: 0 <= i < |ws| ==> lo <= ws[i].frequency <= hi
    ensures NoZeroFrequency(ws) && Reciprocals(ws) != 0.0
    ensures lo as real <= HarmonicMean(ws) <= hi as real
  {
    ReciprocalsBounds(ws, lo, hi);
    MeanBetween(Reciprocals(ws), |ws|, lo, hi);
  }

  lemma OverallOfPositiveMean(ws: seq<Word>)
    requires NoZeroFrequency(ws) && Reciprocals(ws) != 0.0
    requires RoundHalfEven(HarmonicMean(ws)) >= 1
    ensures GetOverallFrequency(ws) ==
              Ok(Ranked(Word(RoundHalfEven(HarmonicMean(ws)), StarsFromFrequency(RoundHalfEven(HarmonicMean(ws))).value)))
  {
  }

  /** A single list's entry is its own overall entry. */
  lemma OverallOfOne(w: Word)
    requires w.frequency >= 1
    ensures GetOverallFrequency([w]) == Ok(Ranked(Word(w.frequency, StarsFromFrequency(w.frequency).value)))
  {
    OverallBetween([w], w.frequency, w.frequency);
  }

  /** Ranks 100 and 400 combine to 2 / (1/100 + 1/400) = 160, five stars. */
  lemma OverallExample()
    ensures GetOverallFrequency([Word(100, 5), Word(400, 5)]) == Ok(Ranked(Word(160, 5)))
  {
    var ws := [Word(100, 5), Word(400, 5)];
    assert ws[1..] == [Word(400, 5)];
    assert Reciprocals(ws) == 1.0 / 100.0 + 1.0 / 400.0;
    assert HarmonicMean(ws) == 160.0;
    assert RoundHalfEven(160.0) == 160;
  }

  // ---------------------------------------------------------------------
  // Looking a word up in every list
  // ---------------------------------------------------------------------

  /** `entry` is the entry for `word` of some list, under that list's name. */
  predicate FromSomeList(word: string, lists: seq<FrequencyList>, entry: (string, Word))
  {
    exists j :: 0 <= j < |lists| && lists[j].name == entry.0 && word in lists[j].words && lists[j].words[word] == entry.1
  }

  /** The entries of the lists that hold `word`, under the list names, in
      the order a loop over `lists` stores them; a later list with the same
      name overwrites the earlier entry in place. */
  function Matched(word: string, lists: seq<FrequencyList>): (r: Dict<Word>)
    ensures |r| <= |lists|
    ensures forall i :: 0 <= i < |r| ==> FromSomeList(word, lists, r[i])
  {
    if lists == [] then []
    else
      var found := Matched(word, lists[..|lists| - 1]);
      var l := lists[|lists| - 1];
      if word in l.words then
        var r := Put(found, l.name, l.words[word]);
        assert forall i :: 0 <= i < |r| ==> FromSomeList(word, lists, r[i]) by {
          forall i | 0 <= i < |r|
            ensures FromSomeList(word, lists, r[i])
          {
            if r[i] == (l.name, l.words[word]) {
              assert lists[|lists| - 1] == l;
            } else {
              var m :| 0 <= m < |found| && found[m] == r[i];
              FromEarlierList(word, lists, r[i]);
            }
          }
        }
        r
      else
        assert forall i :: 0 <= i < |found| ==> FromSomeList(word, lists, found[i]) by {
          forall i | 0 <= i < |found|
            ensures FromSomeList(word, lists, found[i])
          {
            FromEarlierList(word, lists, found[i]);
          }
        }
        found
  }

  /** An entry from one of the lists before the last is from one of the lists. */
  lemma {:induction false} FromEarlierList(word: string, lists: seq<FrequencyList>, entry: (string, Word))
    requires lists != [] && FromSomeList(word, lists[..|lists| - 1], entry)
    ensures FromSomeList(word, lists, entry)
  {
    var init := lists[..|lists| - 1];
    var j :| 0 <= j < |init| && init[j].name == entry.0 && word in init[j].words && init[j].words[word] == entry.1;
    assert lists[j] == init[j];
  }

  /** The entry of the last list named `name` that holds `word`. */
  function LastMatch(word: string, lists: seq<FrequencyList>, name: string): (r: Option<Word>)
    ensures r.Some? <==> exists i :: 0 <= i < |lists| && lists[i].name == name && word in lists[i].words
  {
    if lists == [] then None
    else
      var l := lists[|lists| - 1];
      var init := lists[..|lists| - 1];
      assert forall i :: 0 <= i < |init| ==> init[i] == lists[i];
      if l.name == name && word in l.words then Some(l.words[word]) else LastMatch(word, init, name)
  }

  /** The per-list values as the profile holds them. */
  function AsRanked(d: Dict<Word>): (r: Dict<Frequency>)
    ensures |r| == |d|
    ensures forall i :: 0 <= i < |d| ==> r[i] == (d[i].0, Ranked(d[i].1))
  {
    seq(|d|, i requires 0 <= i < |d| => (d[i].0, Ranked(d[i].1)))
  }

  /** The frequency profile of `word`: its entry in every list that holds it,
      under the list's name, then the overall entry under 'Overall'. */
  function Profile(word: string, lists: seq<FrequencyList>): (r: Result<Dict<Frequency>>)
    ensures r.Err? ==> r.error == ZeroDivisionError || r.error == ValueError
    ensures r.Ok? ==> |r.value| <= |lists| + 1
    ensures r.Ok? ==> Get(r.value, "Overall").Some?
    ensures r.Ok? && Get(r.value, "Overall").value.Ranked? ==>
              var w := Get(r.value, "Overall").value.word;
              w.frequency >= 1 && StarsFromFrequency(w.frequency) == Ok(w.stars)
  {
    var found := Matched(word, lists);
    match GetOverallFrequency(Values(found))
    case Err(e) => Err(e)
    case Ok(overall) => Ok(Put(AsRanked(found), "Overall", overall))
  }

  /** Looks `word` up in each list in turn and adds the overall entry. */
  method GetFrequency(word: string, lists: seq<FrequencyList>) returns (r: Result<Dict<Frequency>>)
    ensures r == Profile(word, lists)
  {
    var frequencies: Dict<Word> := [];
    for i := 0 to |lists|
      invariant frequencies == Matched(word, lists[..i])
    {
      assert lists[..i + 1][..i] == lists[..i];
      var l := lists[i];
      if word in l.words {
        frequencies := Put(frequencies, l.name, l.words[word]);
      }
    }
    assert lists[..|lists|] == lists;
    var overall := GetOverallFrequency(Values(frequencies));
    if overall.Err? {
      return Err(overall.error);
    }
    r := Ok(Put(AsRanked(frequencies), "Overall", overall.value));
  }

  lemma {:induction false} MatchedGet(word: string, lists: seq<FrequencyList>, name: string)
    ensures Get(Matched(word, lists), name) == LastMatch(word, lists, name)
  {
    if lists != [] {
      var init := lists[..|lists| - 1];
      var l := lists[|lists| - 1];
      MatchedGet(word, init, name);
      if word in l.words {
        var found := Matched(word, init);
        assert Matched(word, lists) == Put(found, l.name, l.words[word]);
        if l.name != name {
          assert Get(Put(found, l.name, l.words[word]), name) == Get(found, name);
          assert LastMatch(word, lists, name) == LastMatch(word, init, name);
        } else {
          assert LastMatch(word, lists, name) == Some(l.words[word]);
        }
      } else {
        assert Matched(word, lists) == Matched(word, init);
        assert LastMatch(word, lists, name) == LastMatch(word, init, name);
      }
      assert Get(Matched(word, lists), name) == LastMatch(word, lists, name);
    } else {
      assert Get(Matched(word, lists), name) == LastMatch(word, lists, name);
    }
  }

  lemma {:induction false} AsRankedGet(d: Dict<Word>, k: string)
    ensures Get(AsRanked(d), k) == if Get(d, k).Some? then Some(Ranked(Get(d, k).value)) else None
  {
    if d != [] {
      AsRankedGet(d[1..], k);
      assert AsRanked(d)[1..] == AsRanked(d[1..]);
    }
  }

  /** The profile has a key for exactly the names of the lists that hold the
      word, plus 'Overall'; under each name other than 'Overall' is the entry
      of the last list of that name that holds the word. */
  lemma ProfileEntries(word: string, lists: seq<FrequencyList>, name: string)
    requires Profile(word, lists).Ok?
    ensures Get(Profile(word, lists).value, name).Some? <==>
              name == "Overall" || exists i :: 0 <= i < |lists| && lists[i].name == name && word in lists[i].words
    ensures name != "Overall" && LastMatch(word, lists, name).Some? ==>
              Get(Profile(word, lists).value, name) == Some(Ranked(LastMatch(word, lists, name).value))
  {
    MatchedGet(word, lists, name);
    AsRankedGet(Matched(word, lists), name);
  }

  /** The 'Overall' entry of a profile combines the collected entries. */
  lemma ProfileOverall(word: string, lists: seq<FrequencyList>)
    requires Profile(word, lists).Ok?
    ensures Get(Profile(word, lists).value, "Overall") == Some(GetOverallFrequency(Values(Matched(word, lists))).value)
  {
  }

  /** Every entry a lookup collects is bounded as the lists' entries for the word are. */
  lemma MatchedBounded(word: string, lists: seq<FrequencyList>, lo: int, hi: int)
    requires forall i :: 0 <= i < |lists| && word in lists[i].words ==> lo <= lists[i].words[word].frequency <= hi
    ensures forall i :: 0 <= i < |Matched(word, lists)| ==> lo <= Matched(word, lists)[i].1.frequency <= hi
  {
    var found := Matched(word, lists);
    forall i | 0 <= i < |found|
      ensures lo <= found[i].1.frequency <= hi
    {
      assert FromSomeList(word, lists, found[i]);
      var j :| 0 <= j < |lists| && lists[j].name == found[i].0 && word in lists[j].words && lists[j].words[word] == found[i].1;
    }
  }

  /** A list as loading produces it: ranks at least 1, stars from ranks. */
  predicate ValidList(l: FrequencyList)
  {
    forall w :: w in l.words ==>
      l.words[w].frequency >= 1 && StarsFromFrequency(l.words[w].frequency) == Ok(l.words[w].stars)
  }

  /** A profile over loaded lists never fails, and its overall rank lies
      between the smallest and the largest of the ranks it combines. */
  lemma ProfileOfValidLists(word: string, lists: seq<FrequencyList>, lo: int, hi: int)
    requires forall i :: 0 <= i < |lists| ==> ValidList(lists[i])
    requires 1 <= lo <= hi
    requires forall i :: 0 <= i < |lists| && word in lists[i].words ==> lo <= lists[i].words[word].frequency <= hi
    ensures Profile(word, lists).Ok?
    ensures Matched(word, lists) != [] ==>
              var o := GetOverallFrequency(Values(Matched(word, lists))).value;
              o.Ranked? && lo <= o.word.frequency <= hi
  {
    var found := Matched(word, lists);
    var ws := Values(found);
    assert forall i :: 0 <= i < |ws| ==> lo <= ws[i].frequency <= hi by {
      forall i | 0 <= i < |ws| ensures lo <= ws[i].frequency <= hi {
        assert ws[i] == found[i].1;
      }
    }
    if found == [] {
      OverallOfNothing();
    } else {
      OverallBetween(ws, lo, hi);
    }
  }

  lemma {:induction false} MatchedNone(word: string, lists: seq<FrequencyList>)
    requires forall i :: 0 <= i < |lists| ==> word !in lists[i].words
    ensures Matched(word, lists) == []
  {
    if lists != [] {
      MatchedNone(word, lists[..|lists| - 1]);
    }
  }

  lemma {:induction false} MatchedSingle(word: string, lists: seq<FrequencyList>, j: nat)
    requires j < |lists| && word in lists[j].words
    requires forall i :: 0 <= i < |lists| && i != j ==> word !in lists[i].words
    ensures Matched(word, lists) == [(lists[j].name, lists[j].words[word])]
  {
    var init := lists[..|lists| - 1];
    if j == |lists| - 1 {
      MatchedNone(word, init);
    } else {
      MatchedSingle(word, init, j);
    }
  }

  /** When exactly one list holds the word, the overall rank is that list's
      rank. */
  lemma ProfileOfSingleMatch(word: string, lists: seq<FrequencyList>, j: nat)
    requires j < |lists| && word in lists[j].words && ValidList(lists[j])
    requires forall i :: 0 <= i < |lists| && i != j ==> word !in lists[i].words
    ensures Profile(word, lists).Ok?
    ensures Get(Profile(word, lists).value, "Overall") == Some(Ranked(lists[j].words[word]))
  {
    var w := lists[j].words[word];
    MatchedSingle(word, lists, j);
    assert Values(Matched(word, lists)) == [w];
    OverallOfOne(w);
  }

  /** No list holds the word: the profile is just 'Overall': 'N/A'. */
  lemma ProfileOfUnknownWord(word: string, lists: seq<FrequencyList>)
    requires forall i :: 0 <= i < |lists| ==> word !in lists[i].words
    ensures Profile(word, lists) == Ok([("Overall", NotApplicable)])
  {
    MatchedNone(word, lists);
    OverallOfNothing();
  }

  // ---------------------------------------------------------------------
  // Loading a list
  // ---------------------------------------------------------------------

  /** The list name: the next-to-last `.`-piece of the last `/`-piece of the
      file name; IndexError when that piece has no `.`. */
  function ListName(filename: string): (r: Result<string>)
    ensures r.Err? <==> '.' !in LastPiece(filename, '/')
    ensures r.Ok? ==> '.' !in r.value && '/' !in r.value
  {
    var parts := Split(LastPiece(filename, '/'), '.');
    if |parts| < 2 then
      assert '.' !in LastPiece(filename, '/') by {
        JoinSplit(LastPiece(filename, '/'), '.');
      }
      Err(IndexError)
    else
      assert '.' in LastPiece(filename, '/') by {
        JoinSplit(LastPiece(filename, '/'), '.');
        assert parts == [parts[0]] + parts[1..];
        assert Join(parts, ".") == parts[0] + "." + Join(parts[1..], ".");
      }
      assert '/' !in parts[|parts| - 2] by {
        JoinSplit(LastPiece(filename, '/'), '.');
        SubPieceOfJoin(parts, |parts| - 2, '.');
      }
      Ok(parts[|parts| - 2])
  }

  lemma {:induction false} SubPieceOfJoin(parts: seq<string>, k: nat, c: char)
    requires k < |parts|
    ensures forall x :: x in parts[k] ==> x in Join(parts, [c])
  {
    if k > 0 {
      SubPieceOfJoin(parts[1..], k - 1, c);
    }
  }

  /** `dir/stem.ext` is named `stem`. */
  lemma ListNameOfPath(dir: string, stem: string, ext: string)
    requires '/' !in stem && '/' !in ext && '.' !in stem && '.' !in ext
    ensures ListName(dir + "/" + stem + "." + ext) == Ok(stem)
  {
    var base := stem + "." + ext;
    assert '/' !in base;
    assert dir + "/" + stem + "." + ext == dir + ['/'] + base;
    SplitAround(dir, base, '/');
    SplitWithoutSeparator(base, '/');
    assert base == stem + ['.'] + ext;
    SplitAround(stem, ext, '.');
    SplitWithoutSeparator(stem, '.');
    SplitWithoutSeparator(ext, '.');
  }

  /** The list name read off the `.`-pieces of the last `/`-piece. */
  lemma ListNameOfSplit(filename: string, pieces: seq<string>)
    requires |pieces| >= 2
    requires Split(LastPiece(filename, '/'), '.') == pieces
    ensures ListName(filename) == Ok(pieces[|pieces| - 2])
  {
  }

  lemma LastPieceOfJoin(dir: string, pieces: seq<string>)
    requires forall i :: 0 <= i < |pieces| ==> '/' !in pieces[i]
    ensures LastPiece(dir + "/" + Join(pieces, "."), '/') == Join(pieces, ".")
  {
    var base := Join(pieces, ".");
    JoinAvoids(pieces, ".", '/');
    assert dir + "/" + base == dir + ['/'] + base;
    LastPieceAfter(dir, base, '/');
  }

  /** A name made of dot-separated pieces, after a directory: the list name
      is the next-to-last piece. */
  lemma ListNameOfPieces(dir: string, pieces: seq<string>)
    requires |pieces| >= 2
    requires forall i :: 0 <= i < |pieces| ==> '.' !in pieces[i] && '/' !in pieces[i]
    ensures ListName(dir + "/" + Join(pieces, ".")) == Ok(pieces[|pieces| - 2])
  {
    LastPieceOfJoin(dir, pieces);
    SplitJoin(pieces, '.');
    ListNameOfSplit(dir + "/" + Join(pieces, "."), pieces);
  }

  /** One triple's entry: the first digit run of the descriptor is the rank
      (AssertionError when there is none), the stars come from the rank. */
  function ParseEntry(descriptor: string): (r: Result<Word>)
    ensures r == Err(AssertionError) <==> NoDigits(descriptor)
    ensures r.Ok? ==> r.value.frequency >= 1 && StarsFromFrequency(r.value.frequency) == Ok(r.value.stars)
  {
    match FirstNumber(descriptor)
    case None => Err(AssertionError)
    case Some(freq) =>
      match StarsFromFrequency(freq)
      case Err(e) => Err(e)
      case Ok(stars) => Ok(Word(freq, stars))
  }

  /** The words of a list file, triple by triple; the first failing triple
      aborts the load, with AssertionError (a descriptor without a rank) or
      ValueError (a rank of 0). */
  function LoadWords(data: seq<Triple>): (r: Result<map<string, Word>>)
    ensures r.Err? ==> r.error == AssertionError || r.error == ValueError
  {
    if data == [] then Ok(map[])
    else
      match LoadWords(data[..|data| - 1])
      case Err(e) => Err(e)
      case Ok(words) =>
        var t := data[|data| - 1];
        match ParseEntry(t.descriptor)
        case Err(e) => Err(e)
        case Ok(w) => Ok(words[t.word := w])
  }

  /** The list a file yields: the name is taken before the data is read,
      so a name that cannot be taken (IndexError, see `ListName`) is the
      error whatever the data. */
  function LoadList(filename: string, data: seq<Triple>): (r: Result<FrequencyList>)
    ensures r.Ok? ==> ListName(filename) == Ok(r.value.name)
    ensures r.Err? ==> r.error in {IndexError, AssertionError, ValueError}
    ensures ListName(filename).Err? ==> r == Err(IndexError)
  {
    match ListName(filename)
    case Err(e) => Err(e)
    case Ok(name) =>
      match LoadWords(data)
      case Err(e) => Err(e)
      case Ok(words) => Ok(FrequencyList(name, words))
  }

  lemma {:induction false} LoadWordsFailureSticks(data: seq<Triple>, i: nat, k: nat)
    requires i <= k <= |data|
    requires LoadWords(data[..i]).Err?
    ensures LoadWords(data[..k]) == LoadWords(data[..i])
    decreases k
  {
    if k > i {
      LoadWordsFailureSticks(data, i, k - 1);
      assert data[..k][..k - 1] == data[..k - 1];
    }
  }

  /** Loads the list in the file `filename`, whose contents are `data`. */
  method ProcessFrequencyList(filename: string, data: seq<Triple>) returns (r: Result<FrequencyList>)
    ensures r == LoadList(filename, data)
  {
    var name := ListName(filename);
    if name.Err? {
      return Err(name.error);
    }
    var words: map<string, Word> := map[];
    for i := 0 to |data|
      invariant LoadWords(data[..i]) == Ok(words)
    {
      assert data[..i + 1][..i] == data[..i];
      var t := data[i];
      var m := FirstNumber(t.descriptor);
      if m.None? {
        LoadWordsFailureSticks(data, i + 1, |data|);
        assert data[..|data|] == data;
        return Err(AssertionError);
      }
      var freq := m.value;
      var stars := StarsFromFrequency(freq);
      if stars.Err? {
        LoadWordsFailureSticks(data, i + 1, |data|);
        assert data[..|data|] == data;
        return Err(stars.error);
      }
      words := words[t.word := Word(freq, stars.value)];
    }
    assert data[..|data|] == data;
    r := Ok(FrequencyList(name.value, words));
  }

  /** A load succeeds exactly when every descriptor yields a rank of at least 1. */
  lemma {:induction false} LoadWordsSucceeds(data: seq<Triple>)
    ensures LoadWords(data).Ok? <==> forall i :: 0 <= i < |data| ==> ParseEntry(data[i].descriptor).Ok?
  {
    if data != [] {
      var init := data[..|data| - 1];
      LoadWordsSucceeds(init);
      assert forall i :: 0 <= i < |init| ==> init[i] == data[i];
    }
  }

  /** A successful load has a key for exactly the words of the file. */
  lemma {:induction false} LoadWordsKeys(data: seq<Triple>, w: string)
    requires LoadWords(data).Ok?
    ensures w in LoadWords(data).value <==> exists i :: 0 <= i < |data| && data[i].word == w
  {
    if data != [] {
      var init := data[..|data| - 1];
      LoadWordsKeys(init, w);
      assert forall i :: 0 <= i < |init| ==> init[i] == data[i];
      if w in LoadWords(init).value {
        var i :| 0 <= i < |init| && init[i].word == w;
        assert data[i].word == w;
      }
    }
  }

  /** Under each word is the entry of its last triple: a later duplicate
      overwrites an earlier one. */
  lemma {:induction false} LoadWordsLastWins(data: seq<Triple>, i: nat)
    requires LoadWords(data).Ok?
    requires i < |data|
    requires forall j :: i < j < |data| ==> data[j].word != data[i].word
    ensures ParseEntry(data[i].descriptor).Ok?
    ensures data[i].word in LoadWords(data).value
    ensures LoadWords(data).value[data[i].word] == ParseEntry(data[i].descriptor).value
  {
    LoadWordsSucceeds(data);
    var init := data[..|data| - 1];
    if i < |data| - 1 {
      assert init[i] == data[i];
      assert forall j :: i < j < |init| ==> init[j] == data[j];
      LoadWordsLastWins(init, i);
    }
  }

  /** Every entry a load produces has a rank of at least 1 and the stars of
      that rank. */
  lemma LoadedListIsValid(filename: string, data: seq<Triple>)
    requires LoadList(filename, data).Ok?
    ensures ValidList(LoadList(filename, data).value)
  {
    var words := LoadWords(data).value;
    assert LoadList(filename, data).value.words == words;
    forall w | w in words
      ensures words[w].frequency >= 1 && StarsFromFrequency(words[w].frequency) == Ok(words[w].stars)
    {
      LoadWordsKeys(data, w);
      var i := LastIndexOf(data, w);
      LoadWordsLastWins(data, i);
    }
  }

  /** The index of the last triple for `w`. */
  lemma {:induction false} LastIndexOf(data: seq<Triple>, w: string) returns (i: nat)
    requires exists k :: 0 <= k < |data| && data[k].word == w
    ensures i < |data| && data[i].word == w
    ensures forall j :: i < j < |data| ==> data[j].word != w
  {
    if data[|data| - 1].word == w {
      i := |data| - 1;
    } else {
      var init := data[..|data| - 1];
      var k :| 0 <= k < |data| && data[k].word == w;
      assert init[k] == data[k];
      i := LastIndexOf(init, w);
      assert init[i] == data[i];
    }
  }

  /** A rank written into the descriptor between a digit-free prefix and a
      suffix that does not continue it is the rank the entry gets back. */
  lemma EntryRoundTrip(prefix: string, rank: nat, suffix: string)
    requires NoDigits(prefix) && (suffix == [] || !IsDigit(suffix[0]))
    requires rank >= 1
    ensures ParseEntry(prefix + NatToString(rank) + suffix) == Ok(Word(rank, StarsFromFrequency(rank).value))
  {
    FirstNumberOfEmbedded(prefix, rank, suffix);
  }

  /** The lists of the files in order, or the error of the first file
      that fails to load. */
  function LoadAll(files: seq<(string, seq<Triple>)>): (r: Result<seq<FrequencyList>>)
    ensures r.Ok? <==> forall i :: 0 <= i < |files| ==> LoadList(files[i].0, files[i].1).Ok?
    ensures r.Ok? ==> |r.value| == |files|
    ensures r.Ok? ==> forall i :: 0 <= i < |files| ==> r.value[i] == LoadList(files[i].0, files[i].1).value
  {
    LoadEachLoadsAll(files);
    LoadEach(files)
  }

  /** The files loaded from the first on; stops at the first failure. */
  function LoadEach(files: seq<(string, seq<Triple>)>): Result<seq<FrequencyList>>
  {
    if files == [] then Ok([])
    else
      match LoadList(files[0].0, files[0].1)
      case Err(e) => Err(e)
      case Ok(l) =>
        match LoadEach(files[1..])
        case Err(e) => Err(e)
        case Ok(ls) => Ok([l] + ls)
  }

  lemma {:induction false} LoadEachLoadsAll(files: seq<(string, seq<Triple>)>)
    ensures LoadEach(files).Ok? <==> forall i :: 0 <= i < |files| ==> LoadList(files[i].0, files[i].1).Ok?
    ensures LoadEach(files).Ok? ==> |LoadEach(files).value| == |files|
    ensures LoadEach(files).Ok? ==>
              forall i :: 0 <= i < |files| ==> LoadEach(files).value[i] == LoadList(files[i].0, files[i].1).value
  {
    if files != [] {
      LoadEachLoadsAll(files[1..]);
      assert forall i :: 1 <= i < |files| ==> files[1..][i - 1] == files[i];
    }
  }

  /** A failed load of all files reports the error of the first file that
      fails, the `i`th: every earlier file loads. */
  lemma {:induction false} LoadAllFirstError(files: seq<(string, seq<Triple>)>) returns (i: nat)
    requires LoadAll(files).Err?
    ensures i < |files| && LoadList(files[i].0, files[i].1) == Err(LoadAll(files).error)
    ensures forall k :: 0 <= k < i ==> LoadList(files[k].0, files[k].1).Ok?
  {
    if LoadList(files[0].0, files[0].1).Err? {
      i := 0;
    } else {
      assert LoadAll(files[1..]).Err?;
      var j := LoadAllFirstError(files[1..]);
      i := j + 1;
      assert files[i] == files[1..][j];
      assert forall k :: 1 <= k < i ==> files[k] == files[1..][k - 1];
    }
  }

  /** Loads every list file in turn; the first failure propagates. */
  method GetAllFrequencyLists(files: seq<(string, seq<Triple>)>) returns (r: Result<seq<FrequencyList>>)
    ensures r == LoadAll(files)
  {
    var frequencyLists: seq<FrequencyList> := [];
    for i := 0 to |files|
      invariant |frequencyLists| == i
      invariant forall k :: 0 <= k < i ==> LoadList(files[k].0, files[k].1) == Ok(frequencyLists[k])
    {
      var frequencyList := ProcessFrequencyList(files[i].0, files[i].1);
      if frequencyList.Err? {
        var j := LoadAllFirstError(files);
        assert j == i;
        return Err(frequencyList.error);
      }
      frequencyLists := frequencyLists + [frequencyList.value];
    }
    assert LoadAll(files).Ok?;
    assert LoadAll(files).value == frequencyLists;
    r := Ok(frequencyLists);
  }
}
