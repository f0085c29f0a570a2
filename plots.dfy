/** Histogram binning of word ranks: fixed 500-wide range labels, the lookup
    of a rank's bin, and the largest rank the 'netflix' list gives. */
module Plots {
  import opened Wrappers
  import opened Strings
  import opened Numerals
  import opened Dicts
  import opened FrequencyLists

  const Width: nat := 500

  /** The label of the range from `a` to `b`, as `str(a) + "-" + str(b)`:
      digits on both sides of one '-'. */
  function Label(a: nat, b: nat): (s: string)
    ensures |s| >= 3
    ensures |NatToString(a)| < |s| - 1 && s[|NatToString(a)|] == '-'
    ensures forall i :: 0 <= i < |s| && i != |NatToString(a)| ==> IsDigit(s[i])
  {
    NatToString(a) + "-" + NatToString(b)
  }

  /** How many bins a maximum rank gets: the trailing partial bin is dropped. */
  function BinCount(m: int): (n: nat)
    ensures n * Width <= if m < 0 then 0 else m
    ensures m >= 0 ==> m < (n + 1) * Width
  {
    if m < Width then 0 else m / Width
  }

  /** `bins` are the labels "0-500", "500-1000", ... of `n` bins. */
  predicate Generated(bins: seq<string>, n: nat)
  {
    |bins| == n && forall i :: 0 <= i < n ==> bins[i] == Label(i * Width, (i + 1) * Width)
  }

  /** Builds the labels while the next bin's high end is at most the maximum. */
  method GenerateBins(maximum: int) returns (lst: seq<string>)
    ensures Generated(lst, BinCount(maximum))
  {
    var a: nat := 0;
    var b: nat := Width;
    lst := [];
    while b <= maximum
      invariant a == |lst| * Width && b == a + Width
      invariant a <= if maximum < 0 then 0 else maximum
      invariant Generated(lst, |lst|)
      decreases maximum - b
    {
      lst := lst + [Label(a, b)];
      a := b;
      b := b + Width;
    }
    assert |lst| == BinCount(maximum) by {
      if maximum >= Width {
        assert |lst| * Width <= maximum < (|lst| + 1) * Width;
      }
    }
  }

  /** `int(bin.split("-")[0])`: the label must start with a digit. */
  function LowEnd(bin: string): (r: Result<nat>)
    ensures r.Err? ==> r.error == ValueError
    ensures r.Ok? ==> |bin| >= 1 && IsDigit(bin[0])
  {
    SplitShape(bin, '-');
    ParseNat(Split(bin, '-')[0])
  }

  /** `int(bin.split("-")[1])`: IndexError exactly when there is no '-'. */
  function HighEnd(bin: string): (r: Result<nat>)
    ensures r == Err(IndexError) <==> '-' !in bin
    ensures r.Err? ==> r.error == IndexError || r.error == ValueError
  {
    SplitShape(bin, '-');
    var parts := Split(bin, '-');
    if |parts| < 2 then Err(IndexError) else ParseNat(parts[1])
  }

  /** Splitting a label on '-' gives back the two numbers it was built from. */
  lemma LabelRoundTrip(a: nat, b: nat)
    ensures Split(Label(a, b), '-') == [NatToString(a), NatToString(b)]
    ensures LowEnd(Label(a, b)) == Ok(a) && HighEnd(Label(a, b)) == Ok(b)
  {
    var x, y := NatToString(a), NatToString(b);
    assert Label(a, b) == x + ['-'] + y;
    SplitAround(x, y, '-');
    assert '-' !in x && '-' !in y by {
      assert !IsDigit('-');
    }
    SplitWithoutSeparator(x, '-');
    SplitWithoutSeparator(y, '-');
    ParseNatToString(a);
    ParseNatToString(b);
  }

  /** The generated bins are contiguous, start at 0 and end at or below the
      maximum; a maximum below 500 gives no bins at all. */
  lemma BinsContiguous(bins: seq<string>, m: int)
    requires Generated(bins, BinCount(m))
    ensures m < Width ==> bins == []
    ensures bins != [] ==> LowEnd(bins[0]) == Ok(0)
    ensures forall i :: 0 <= i < |bins| - 1 ==> HighEnd(bins[i]) == LowEnd(bins[i + 1])
    ensures forall i :: 0 <= i < |bins| ==> HighEnd(bins[i]).Ok? && HighEnd(bins[i]).value <= m
  {
    forall i | 0 <= i < |bins|
      ensures LowEnd(bins[i]) == Ok(i * Width) && HighEnd(bins[i]) == Ok((i + 1) * Width)
    {
      LabelRoundTrip(i * Width, (i + 1) * Width);
    }
  }

  /** Whether rank `f` falls into the bin labelled `bin`: `f >= int(lo) and f < int(hi)`,
      evaluated left to right, so `hi` is only read once `f >= lo`. */
  function InBin(f: int, bin: string): (r: Result<bool>)
    ensures r.Err? ==> r.error == ValueError || r.error == IndexError
    ensures r.Ok? ==> LowEnd(bin).Ok?
    ensures LowEnd(bin).Ok? && f < LowEnd(bin).value ==> r == Ok(false)
    ensures r == Ok(true) ==> LowEnd(bin).value <= f && HighEnd(bin).Ok? && f < HighEnd(bin).value
  {
    var lo := LowEnd(bin);
    if lo.Err? then Err(lo.error)
    else if f < lo.value then Ok(false)
    else
      var hi := HighEnd(bin);
      if hi.Err? then Err(hi.error) else Ok(f < hi.value)
  }

  /** On a generated label the test is exactly `lo <= f < hi`. */
  lemma InBinOfLabel(f: int, a: nat, b: nat)
    ensures InBin(f, Label(a, b)) == Ok(a <= f < b)
  {
    LabelRoundTrip(a, b);
  }

  /** A label with no '-' after a matching low end raises IndexError, and one
      whose low end is not a number raises ValueError. */
  lemma InBinErrors(f: int, bin: string)
    ensures LowEnd(bin).Err? ==> InBin(f, bin) == Err(ValueError)
    ensures '-' !in bin && ParseNat(bin).Ok? && ParseNat(bin).value <= f ==>
              InBin(f, bin) == Err(IndexError)
  {
    if '-' !in bin {
      SplitWithoutSeparator(bin, '-');
    }
  }

  /** The scan from bin `i` on: the first bin that holds `f`, else the last
      index of the list (-1 for an empty list); the first malformed label met raises. */
  function BinScan(f: int, bins: seq<string>, i: nat): (r: Result<int>)
    requires i <= |bins|
    ensures r.Ok? ==> r.value == |bins| - 1 || (i <= r.value < |bins| && InBin(f, bins[r.value]) == Ok(true))
    ensures r.Ok? ==> forall k :: i <= k < |bins| && k < r.value ==> InBin(f, bins[k]) == Ok(false)
    ensures r.Ok? && r.value < |bins| - 1 ==> InBin(f, bins[r.value]) == Ok(true)
    decreases |bins| - i
  {
    if i == |bins| then Ok(|bins| - 1)
    else
      match InBin(f, bins[i])
      case Err(e) => Err(e)
      case Ok(true) => Ok(i)
      case Ok(false) => BinScan(f, bins, i + 1)
  }

  /** `get_bins`: the index of the first bin holding `f`, or the last index. */
  method GetBins(f: int, bins: seq<string>) returns (r: Result<int>)
    ensures r == BinScan(f, bins, 0)
  {
    for i := 0 to |bins|
      invariant BinScan(f, bins, 0) == BinScan(f, bins, i)
    {
      var m := InBin(f, bins[i]);
      if m.Err? {
        return Err(m.error);
      }
      if m.value {
        return Ok(i);
      }
    }
    return Ok(|bins| - 1);
  }

  /** Over generated bins, the scan from bin `i` finds bin `f / 500` for a rank
      from `500 * i` up to the end of the last bin, and falls back to the last
      index for a rank outside every bin. */
  lemma ScanGenerated(f: int, bins: seq<string>, n: nat, i: nat)
    requires Generated(bins, n) && i <= n
    requires f < 0 || i * Width <= f
    ensures 0 <= f < n * Width ==> BinScan(f, bins, i) == Ok(f / Width)
    ensures (f < 0 || n * Width <= f) ==> BinScan(f, bins, i) == Ok(n - 1)
  {
    forall k | 0 <= k < |bins|
      ensures InBin(f, bins[k]) == Ok(k * Width <= f < (k + 1) * Width)
    {
      InBinOfLabel(f, k * Width, (k + 1) * Width);
    }
    ScanBins(f, bins, i);
  }

  /** The scan over bins where bin `k` holds exactly the ranks from `500 * k`
      up to `500 * (k + 1)`. */
  lemma {:induction false} ScanBins(f: int, bins: seq<string>, i: nat)
    requires i <= |bins|
    requires forall k :: 0 <= k < |bins| ==> InBin(f, bins[k]) == Ok(k * Width <= f < (k + 1) * Width)
    requires f < 0 || i * Width <= f
    ensures 0 <= f < |bins| * Width ==> BinScan(f, bins, i) == Ok(f / Width)
    ensures (f < 0 || |bins| * Width <= f) ==> BinScan(f, bins, i) == Ok(|bins| - 1)
    decreases |bins| - i
  {
    if i < |bins| {
      if 0 <= f < (i + 1) * Width {
        DivInBin(f, i);
      } else {
        ScanBins(f, bins, i + 1);
      }
    }
  }

  lemma DivInBin(f: int, i: nat)
    requires i * Width <= f < (i + 1) * Width
    ensures f / Width == i
  {
  }

  /** `get_bins(f, generate_bins(m))` is `f // 500` for a rank inside the bins,
      and the last bin for any other rank. */
  lemma BinOfGenerated(f: int, bins: seq<string>, m: int)
    requires Generated(bins, BinCount(m))
    ensures 0 <= f < |bins| * Width ==> BinScan(f, bins, 0) == Ok(f / Width)
    ensures (f < 0 || |bins| * Width <= f) ==> BinScan(f, bins, 0) == Ok(|bins| - 1)
  {
    ScanGenerated(f, bins, |bins|, 0);
  }

  /** With a maximum rank of 1300 there are two bins, and rank 1301 lies in
      neither, so it is counted in the last one. */
  lemma BinsExample(bins: seq<string>)
    requires Generated(bins, BinCount(1300))
    ensures |bins| == 2
    ensures BinScan(1301, bins, 0) == Ok(1)
    ensures BinScan(499, bins, 0) == Ok(0)
  {
    BinOfGenerated(1301, bins, 1300);
    BinOfGenerated(499, bins, 1300);
  }

  /** The 'netflix' entry of a word's frequency profile. */
  const Netflix: string := "netflix"

  /** `get_maximum_frequency`: the largest 'netflix' rank among the words'
      profiles, at least 0; reading the rank of an 'N/A' entry raises. */
  method GetMaximumFrequency(profiles: seq<Dict<Frequency>>) returns (r: Result<int>)
    ensures r.Err? <==> exists i :: 0 <= i < |profiles| && Get(profiles[i], Netflix) == Some(NotApplicable)
    ensures r.Err? ==> r.error == AttributeError
    ensures r.Ok? ==> r.value >= 0
    ensures r.Ok? ==> forall i, w :: 0 <= i < |profiles| && Get(profiles[i], Netflix) == Some(Ranked(w)) ==>
              w.frequency <= r.value
    ensures r.Ok? && r.value != 0 ==>
              exists i, w :: 0 <= i < |profiles| && Get(profiles[i], Netflix) == Some(Ranked(w)) && w.frequency == r.value
  {
    var maximum := 0;
    for i := 0 to |profiles|
      invariant maximum >= 0
      invariant forall k :: 0 <= k < i ==> Get(profiles[k], Netflix) != Some(NotApplicable)
      invariant forall k, w :: 0 <= k < i && Get(profiles[k], Netflix) == Some(Ranked(w)) ==>
                  w.frequency <= maximum
      invariant maximum != 0 ==>
                  exists k, w :: 0 <= k < i && Get(profiles[k], Netflix) == Some(Ranked(w)) && w.frequency == maximum
    {
      var entry := Get(profiles[i], Netflix);
      if entry.Some? {
        if entry.value.NotApplicable? {
          return Err(AttributeError);
        }
        if entry.value.word.frequency > maximum {
          maximum := entry.value.word.frequency;
        }
      }
    }
    return Ok(maximum);
  }
}
