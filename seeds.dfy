/** The seed segmenter of main.cpp: split_seq cuts a code sequence into
    overlapping windows, load_seed_seq applies it to every decoded record. */
module Seeds {
  import Fasta

  /** C++ `/` on int truncates toward zero; Dafny's `/` is Euclidean. */
  function TruncDiv(a: int, b: int): (q: int)
    requires b > 0
    ensures a >= 0 ==> q * b <= a < q * b + b
    ensures a < 0 ==> a <= q * b < a + b
  {
    if a >= 0 then a / b else -((-a) / b)
  }

  /** num_full_cycles = (((int) seq.size()) - length) / denom. */
  function FullCycles(n: nat, denom: int, length: int): int
    requires denom > 0
  {
    TruncDiv(n - length, denom)
  }

  /** The tail test `seq.size() > num_full_cycles * denom`: the right side is
      an int converted to size_t, so a negative value becomes huge and the
      test fails. */
  predicate TakesTail(n: nat, denom: int, length: int)
    requires denom > 0
  {
    var p := FullCycles(n, denom, length) * denom;
    p >= 0 && n > p
  }

  /** split_seq stays inside the sequence: a positive stride, a window that
      is not reversed, and no tail window `seq.end() - length` starting
      before `seq.begin()`. */
  predicate SplitDefined(n: nat, denom: int, length: int) {
    denom > 0 && length >= 0 && (TakesTail(n, denom, length) ==> n >= length)
  }

  /** Full window i < num_full_cycles starts at i * denom and ends inside
      the sequence. */
  lemma WindowFits(n: nat, denom: int, length: int, i: int)
    requires SplitDefined(n, denom, length) && 0 <= i < FullCycles(n, denom, length)
    ensures 0 <= i * denom && i * denom + length <= n
  {
    var f := FullCycles(n, denom, length);
    assert f * denom <= n - length;
    assert (f - i) * denom >= 0;
  }

  /** The first `count` windows of the loop at main.cpp:91-96. */
  function FullWindows(s: seq<int>, denom: int, length: int, count: nat): (r: seq<seq<int>>)
    requires SplitDefined(|s|, denom, length)
    requires count == 0 || count <= FullCycles(|s|, denom, length)
    ensures |r| == count
  {
    if count == 0 then []
    else
      WindowFits(|s|, denom, length, count - 1);
      FullWindows(s, denom, length, count - 1) + [s[(count - 1) * denom .. (count - 1) * denom + length]]
  }

  /** Window i of the loop is the slice of `length` codes at i * denom. */
  lemma {:induction false} FullWindowsAt(s: seq<int>, denom: int, length: int, count: nat, i: nat)
    requires SplitDefined(|s|, denom, length)
    requires count == 0 || count <= FullCycles(|s|, denom, length)
    requires i < count
    ensures 0 <= i * denom && i * denom + length <= |s|
    ensures FullWindows(s, denom, length, count)[i] == s[i * denom .. i * denom + length]
  {
    WindowFits(|s|, denom, length, i);
    if i < count - 1 {
      FullWindowsAt(s, denom, length, count - 1, i);
    }
  }

  /** What split_seq appends to seed_seqs. */
  function Windows(s: seq<int>, denom: int, length: int): seq<seq<int>>
    requires SplitDefined(|s|, denom, length)
  {
    var f := FullCycles(|s|, denom, length);
    var full := if f > 0 then FullWindows(s, denom, length, f) else [];
    full + if TakesTail(|s|, denom, length) then [s[|s| - length..]] else []
  }

  /** split_seq: appends the windows of `s` to `seedSeqs`. */
  method SplitSeq(s: seq<int>, denom: int, length: int, seedSeqs: seq<seq<int>>) returns (seedSeqs': seq<seq<int>>)
    requires SplitDefined(|s|, denom, length)
    ensures seedSeqs' == seedSeqs + Windows(s, denom, length)
  {
    var numFullCycles := TruncDiv(|s| - length, denom);
    seedSeqs' := seedSeqs;
    var i := 0;
    while i < numFullCycles
      invariant 0 <= i && (i == 0 || i <= numFullCycles)
      invariant seedSeqs' == seedSeqs + FullWindows(s, denom, length, i)
    {
      WindowFits(|s|, denom, length, i);
      seedSeqs' := seedSeqs' + [s[i * denom .. i * denom + length]];
      i := i + 1;
    }
    assert seedSeqs' == seedSeqs + if numFullCycles > 0 then FullWindows(s, denom, length, numFullCycles) else [];
    var p := numFullCycles * denom;
    if p >= 0 && |s| > p {
      seedSeqs' := seedSeqs' + [s[|s| - length..]];
    }
  }

  /** The seed parameters used by load_seed_seq: stride 10, window 30. */
  const Stride := 10
  const Width := 30

  /** With stride 10 and window 30, split_seq is defined exactly for
      sequences of at most 20 or at least 30 residues. */
  lemma SeedSplitDefined(n: nat)
    ensures SplitDefined(n, Stride, Width) <==> n <= 20 || n >= 30
  {
    var f := FullCycles(n, Stride, Width);
    if n <= 20 {
      assert f < 0;
    } else if n < 30 {
      assert f == 0;
    }
  }

  /** Start of seed window k in a sequence of length n >= 30. */
  function SeedStart(n: nat, k: nat): int
    requires n >= Width
  {
    if k < (n - Width) / Stride then Stride * k else n - Width
  }

  /** For L >= 30 and F = (L - 30) / 10: F + 1 windows of 30 residues, window
      k < F at offset 10k, the last one the final 30 residues. */
  lemma SeedWindows(s: seq<int>)
    requires |s| >= Width
    ensures SplitDefined(|s|, Stride, Width)
    ensures |Windows(s, Stride, Width)| == (|s| - Width) / Stride + 1
    ensures forall k :: 0 <= k < |Windows(s, Stride, Width)| ==>
      0 <= SeedStart(|s|, k) && SeedStart(|s|, k) + Width <= |s| &&
      Windows(s, Stride, Width)[k] == s[SeedStart(|s|, k) .. SeedStart(|s|, k) + Width]
    ensures Windows(s, Stride, Width)[(|s| - Width) / Stride] == s[|s| - Width..]
  {
    SeedSplitDefined(|s|);
    var n := |s|;
    var f := (n - Width) / Stride;
    assert FullCycles(n, Stride, Width) == f;
    assert TakesTail(n, Stride, Width);
    var w := Windows(s, Stride, Width);
    forall k | 0 <= k < |w|
      ensures 0 <= SeedStart(n, k) && SeedStart(n, k) + Width <= n
      ensures w[k] == s[SeedStart(n, k) .. SeedStart(n, k) + Width]
    {
      if k < f {
        FullWindowsAt(s, Stride, Width, f, k);
      }
    }
  }

  /** No full window reaches the end of the sequence: each ends at least 10
      codes before it, so the tail window never repeats a full one. */
  lemma FullWindowsEndBeforeTail(n: nat, k: nat)
    requires n >= Width && k < (n - Width) / Stride
    ensures SeedStart(n, k) + Width <= n - Stride
    ensures SeedStart(n, k) < n - Width
  {
    assert Stride * ((n - Width) / Stride) <= n - Width;
  }

  /** Sequences of at most 20 residues yield no window. */
  lemma ShortSequenceHasNoSeeds(s: seq<int>)
    requires |s| <= 20
    ensures SplitDefined(|s|, Stride, Width) && Windows(s, Stride, Width) == []
  {
    SeedSplitDefined(|s|);
    assert FullCycles(|s|, Stride, Width) < 0;
  }

  /** Every window has exactly 30 residues, so the length check of
      load_seed_seq never fires. */
  lemma SeedsHaveWidth(s: seq<int>)
    requires SplitDefined(|s|, Stride, Width)
    ensures forall k :: 0 <= k < |Windows(s, Stride, Width)| ==> |Windows(s, Stride, Width)[k]| == Width
  {
    SeedSplitDefined(|s|);
    if |s| >= Width {
      SeedWindows(s);
    } else {
      ShortSequenceHasNoSeeds(s);
    }
  }

  /** Every residue of a sequence of 30, or of 40 or more, residues lies in
      some window. */
  lemma SeedsCover(s: seq<int>, p: int)
    requires |s| == Width || |s| >= Width + Stride
    requires 0 <= p < |s|
    ensures SplitDefined(|s|, Stride, Width)
    ensures exists k :: (0 <= k < |Windows(s, Stride, Width)| &&
                         SeedStart(|s|, k) <= p < SeedStart(|s|, k) + Width)
  {
    SeedWindows(s);
    var n := |s|;
    var f := (n - Width) / Stride;
    var k: nat;
    if p >= n - Width {
      k := f;
    } else if p / Stride < f {
      k := p / Stride;
    } else {
      k := f - 1;
    }
    assert SeedStart(n, k) <= p < SeedStart(n, k) + Width;
  }

  /** For 31 to 39 residues there is no full cycle: the single window is the
      last 30 residues, and the first L - 30 residues lie in no window. */
  lemma ShortSeedSkipsHead(s: seq<int>)
    requires Width < |s| < Width + Stride
    ensures SplitDefined(|s|, Stride, Width)
    ensures Windows(s, Stride, Width) == [s[|s| - Width..]]
  {
    SeedWindows(s);
  }

  /** The windows of all records, in record order. */
  function AllWindows(seqs: seq<seq<int>>): seq<seq<int>>
    requires forall k :: 0 <= k < |seqs| ==> SplitDefined(|seqs[k]|, Stride, Width)
  {
    if seqs == [] then []
    else AllWindows(seqs[..|seqs| - 1]) + Windows(seqs[|seqs| - 1], Stride, Width)
  }

  /** Every fragment load_seed_seq returns has 30 residues. */
  lemma {:induction false} AllWindowsHaveWidth(seqs: seq<seq<int>>)
    requires forall k :: 0 <= k < |seqs| ==> SplitDefined(|seqs[k]|, Stride, Width)
    ensures forall k :: 0 <= k < |AllWindows(seqs)| ==> |AllWindows(seqs)[k]| == Width
  {
    if seqs != [] {
      AllWindowsHaveWidth(seqs[..|seqs| - 1]);
      SeedsHaveWidth(seqs[|seqs| - 1]);
    }
  }

  /** load_seed_seq: the windows of every decoded record; headers are
      discarded. */
  method LoadSeedSeq(lines: seq<string>) returns (seedSeqs: seq<seq<int>>)
    requires var seqs := Fasta.Decode(lines, [], []).sequences;
      forall k :: 0 <= k < |seqs| ==> SplitDefined(|seqs[k]|, Stride, Width)
    ensures seedSeqs == AllWindows(Fasta.Decode(lines, [], []).sequences)
    ensures forall k :: 0 <= k < |seedSeqs| ==> |seedSeqs[k]| == Width
  {
    var headers, rawSplit := Fasta.LoadFastaSequences(lines, [], []);
    seedSeqs := [];
    for i := 0 to |rawSplit|
      invariant seedSeqs == AllWindows(rawSplit[..i])
    {
      var split := SplitSeq(rawSplit[i], 10, 30, []);
      // The length check at main.cpp:115-123 cannot fire.
      SeedsHaveWidth(rawSplit[i]);
      assert forall k :: 0 <= k < |split| ==> |split[k]| == 30;
      seedSeqs := seedSeqs + split;
      assert rawSplit[..i + 1][..i] == rawSplit[..i];
    }
    assert rawSplit[..|rawSplit|] == rawSplit;
    AllWindowsHaveWidth(rawSplit);
  }
}
