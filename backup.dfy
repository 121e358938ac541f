/** The older variant of the three readers in backup.cpp. Its FASTA decoder
    throws on a residue outside the alphabet and never moves current_header
    on when it closes a record; split_seq and load_seed_seq return their
    results by value; read_blosum reads the same columns as main.cpp's. */
module Backup {
  import opened Alphabet
  import Fasta
  import Seeds
  import Blosum

  /** A call that returns a value or ends in an exception. */
  datatype Outcome<T> = Returned(value: T) | Thrown

  /** One pass of the loop body at backup.cpp:66-86. A header line closes a
      non-empty record under the header it already has; a sequence line
      with a character outside the alphabet reaches `.at('X')`, which
      throws because 'X' is not a key. */
  function Step(d: Fasta.Decoder, line: string): Outcome<Fasta.Decoder> {
    if Fasta.IsHeaderLine(line) then
      if d.current == [] then Returned(d.(header := line))
      else Returned(Fasta.Decoder(d.header, [], d.headers + [d.header], d.sequences + [d.current]))
    else if Fasta.AllCanonical(line) then
      Returned(d.(current := d.current + Fasta.LineCodes(line)))
    else Thrown
  }

  /** The loop over all lines, from decoder state d. */
  function Run(d: Fasta.Decoder, lines: seq<string>): Outcome<Fasta.Decoder> {
    if lines == [] then Returned(d)
    else
      match Run(d, lines[..|lines| - 1])
      case Returned(p) => Step(p, lines[|lines| - 1])
      case Thrown => Thrown
  }

  /** The decoder state load_fasta_sequences starts from. */
  function Start(): Fasta.Decoder {
    Fasta.Decoder("", [], [], [])
  }

  /** What backup.cpp's load_fasta_sequences returns: the pair (headers,
      sequences), after the same flush as main.cpp (backup.cpp:89-92). */
  function Decode(lines: seq<string>): Outcome<(seq<string>, seq<seq<int>>)> {
    match Run(Start(), lines)
    case Returned(d) => var f := Fasta.Finish(d); Returned((f.headers, f.sequences))
    case Thrown => Thrown
  }

  lemma RunSnoc(d: Fasta.Decoder, lines: seq<string>, line: string)
    ensures Run(d, lines + [line]) ==
      match Run(d, lines)
      case Returned(p) => Step(p, line)
      case Thrown => Thrown
  {
    assert (lines + [line])[..|lines|] == lines;
  }

  /** A sequence line of the input holding a character outside the alphabet. */
  predicate HasUnknownResidue(lines: seq<string>) {
    exists i :: 0 <= i < |lines| && !Fasta.IsHeaderLine(lines[i]) && !Fasta.AllCanonical(lines[i])
  }

  lemma {:induction false} RunThrows(d: Fasta.Decoder, lines: seq<string>)
    ensures Run(d, lines).Thrown? <==> HasUnknownResidue(lines)
  {
    if lines != [] {
      var init := lines[..|lines| - 1];
      var line := lines[|lines| - 1];
      RunThrows(d, init);
      if HasUnknownResidue(init) {
        var i :| 0 <= i < |init| && !Fasta.IsHeaderLine(init[i]) && !Fasta.AllCanonical(init[i]);
        assert lines[i] == init[i];
      } else if !Fasta.IsHeaderLine(line) && !Fasta.AllCanonical(line) {
        assert lines[|lines| - 1] == line;
      } else {
        forall i | 0 <= i < |lines|
          ensures Fasta.IsHeaderLine(lines[i]) || Fasta.AllCanonical(lines[i])
        {
          if i < |init| {
            assert lines[i] == init[i];
          }
        }
      }
    }
  }

  /** The decoder throws exactly when some sequence line holds a character
      outside the alphabet; a decode that returns therefore saw only
      canonical residues. */
  lemma ThrowsIffUnknownResidue(lines: seq<string>)
    ensures Decode(lines).Thrown? <==> HasUnknownResidue(lines)
  {
    RunThrows(Start(), lines);
  }

  /** Until it throws, the loop builds the same sequences as main.cpp's and
      as many headers; only the header values may differ. */
  lemma {:induction false} RunAgrees(d: Fasta.Decoder, lines: seq<string>)
    requires Run(d, lines).Returned?
    ensures var b := Run(d, lines).value;
      var a := Fasta.Run(d, lines);
      b.current == a.current && b.sequences == a.sequences && |b.headers| == |a.headers|
  {
    if lines != [] {
      var init := lines[..|lines| - 1];
      RunAgrees(d, init);
    }
  }

  /** When it returns, backup.cpp's decoder yields the same sequences as
      main.cpp's, and one header per sequence. */
  lemma AgreesWithMainOnSequences(lines: seq<string>)
    requires Decode(lines).Returned?
    ensures Decode(lines).value.1 == Fasta.Decode(lines, [], []).sequences
    ensures |Decode(lines).value.0| == |Decode(lines).value.1|
  {
    RunAgrees(Start(), lines);
    Fasta.DecodeAppends(lines, [], []);
  }

  /** When it returns, every record is a non-empty run of codes in [0, 19],
      and together they are the codes of all sequence lines, in order. */
  lemma ReturnedRecords(lines: seq<string>)
    requires Decode(lines).Returned?
    ensures forall k :: 0 <= k < |Decode(lines).value.1| ==> Fasta.IsRecordCodes(Decode(lines).value.1[k])
    ensures Fasta.Flatten(Decode(lines).value.1) == Fasta.SequenceCodes(lines)
  {
    var m := Fasta.Decode(lines, [], []).sequences;
    assert Decode(lines).value.1 == m by {
      AgreesWithMainOnSequences(lines);
    }
    assert forall k :: 0 <= k < |m| ==> Fasta.IsRecordCodes(m[k]) by {
      Fasta.DecodeRecords(lines, [], []);
    }
    assert Fasta.Flatten(m) == Fasta.SequenceCodes(lines) by {
      Fasta.DecodeConserves(lines, [], []);
      assert Fasta.Flatten([]) + Fasta.SequenceCodes(lines) == Fasta.SequenceCodes(lines);
    }
  }

  /** In ordinary FASTA, after the first line the pending header is the
      first line, and the headers emitted so far all equal it. */
  lemma {:induction false} PrefixHeaderSticks(lines: seq<string>, n: int)
    requires Fasta.OneHeaderPerRecord(lines) && 1 <= n <= |lines|
    requires Run(Start(), lines[..n]).Returned?
    ensures var r := Run(Start(), lines[..n]).value;
      r.header == lines[0] &&
      (forall k :: 0 <= k < |r.headers| ==> r.headers[k] == lines[0]) &&
      (r.current == [] <==> Fasta.IsHeaderLine(lines[n - 1])) &&
      |r.headers| + 1 == |Fasta.HeaderLines(lines[..n])|
  {
    if n == 1 {
      assert lines[..1] == [lines[0]];
      assert lines[..1][..0] == [];
    } else {
      assert lines[..n][..n - 1] == lines[..n - 1];
      assert lines[..n][n - 1] == lines[n - 1];
      PrefixHeaderSticks(lines, n - 1);
    }
  }

  /** The stale header: in ordinary FASTA every record backup.cpp emits
      carries the first header line, whatever header introduced it, while
      the number of records is the number of header lines. */
  lemma HeaderSticks(lines: seq<string>)
    requires Fasta.OneHeaderPerRecord(lines) && Decode(lines).Returned?
    ensures forall k :: 0 <= k < |Decode(lines).value.0| ==> Decode(lines).value.0[k] == lines[0]
    ensures |Decode(lines).value.0| == |Fasta.HeaderLines(lines)|
  {
    assert lines[..|lines|] == lines;
    PrefixHeaderSticks(lines, |lines|);
  }

  /** Two well-formed records h1 / r1 and h2 / r2. */
  predicate TwoRecords(h1: string, r1: string, h2: string, r2: string) {
    Fasta.IsHeaderLine(h1) && Fasta.IsHeaderLine(h2) &&
    !Fasta.IsHeaderLine(r1) && Fasta.AllCanonical(r1) && Fasta.LineCodes(r1) != [] &&
    !Fasta.IsHeaderLine(r2) && Fasta.AllCanonical(r2) && Fasta.LineCodes(r2) != []
  }

  /** backup.cpp's decoder on two records labels both with the first header. */
  lemma TwoRecordsHere(h1: string, r1: string, h2: string, r2: string)
    requires TwoRecords(h1, r1, h2, r2)
    ensures Decode([h1, r1, h2, r2]) == Returned(([h1, h1], [Fasta.LineCodes(r1), Fasta.LineCodes(r2)]))
  {
    var c1, c2 := Fasta.LineCodes(r1), Fasta.LineCodes(r2);
    var d3 := Fasta.Decoder(h1, [], [h1], [c1]);
    assert Run(Start(), [h1]) == Returned(Fasta.Decoder(h1, [], [], [])) by {
      RunSnoc(Start(), [], h1);
      assert [] + [h1] == [h1];
    }
    assert Run(Start(), [h1, r1]) == Returned(Fasta.Decoder(h1, c1, [], [])) by {
      RunSnoc(Start(), [h1], r1);
      assert [h1] + [r1] == [h1, r1] && [] + c1 == c1;
    }
    assert Run(Start(), [h1, r1, h2]) == Returned(d3) by {
      RunSnoc(Start(), [h1, r1], h2);
      assert [h1, r1] + [h2] == [h1, r1, h2] && [] + [h1] == [h1] && [] + [c1] == [c1];
    }
    assert Run(Start(), [h1, r1, h2, r2]) == Returned(d3.(current := c2)) by {
      RunSnoc(Start(), [h1, r1, h2], r2);
      assert [h1, r1, h2] + [r2] == [h1, r1, h2, r2] && [] + c2 == c2;
    }
    assert [h1] + [h1] == [h1, h1] && [c1] + [c2] == [c1, c2];
  }

  /** main.cpp's decoder on two records labels each with its own header. */
  lemma TwoRecordsMain(h1: string, r1: string, h2: string, r2: string)
    requires TwoRecords(h1, r1, h2, r2)
    ensures Fasta.Decode([h1, r1, h2, r2], [], []).headers == [h1, h2]
  {
    var c1, c2 := Fasta.LineCodes(r1), Fasta.LineCodes(r2);
    var d3 := Fasta.Decoder(h2, [], [h1], [c1]);
    assert Fasta.Run(Start(), [h1]) == Fasta.Decoder(h1, [], [], []) by {
      Fasta.RunSnoc(Start(), [], h1);
      assert [] + [h1] == [h1];
    }
    assert Fasta.Run(Start(), [h1, r1]) == Fasta.Decoder(h1, c1, [], []) by {
      Fasta.RunSnoc(Start(), [h1], r1);
      assert [h1] + [r1] == [h1, r1] && [] + c1 == c1;
    }
    assert Fasta.Run(Start(), [h1, r1, h2]) == d3 by {
      Fasta.RunSnoc(Start(), [h1, r1], h2);
      assert [h1, r1] + [h2] == [h1, r1, h2] && [] + [h1] == [h1] && [] + [c1] == [c1];
    }
    assert Fasta.Run(Start(), [h1, r1, h2, r2]) == d3.(current := c2) by {
      Fasta.RunSnoc(Start(), [h1, r1, h2], r2);
      assert [h1, r1, h2] + [r2] == [h1, r1, h2, r2] && [] + c2 == c2;
    }
    assert [h1] + [h2] == [h1, h2];
  }

  /** Two records with different headers (for example ">a" / "A" and
      ">b" / "C"): backup.cpp labels both h1, main.cpp labels them h1 and
      h2. */
  lemma StaleHeaderExample(h1: string, r1: string, h2: string, r2: string)
    requires TwoRecords(h1, r1, h2, r2) && h1 != h2
    ensures Decode([h1, r1, h2, r2]).Returned?
    ensures Decode([h1, r1, h2, r2]).value.0 == [h1, h1]
    ensures Fasta.Decode([h1, r1, h2, r2], [], []).headers == [h1, h2]
    ensures Decode([h1, r1, h2, r2]).value.0 != Fasta.Decode([h1, r1, h2, r2], [], []).headers
  {
    TwoRecordsHere(h1, r1, h2, r2);
    TwoRecordsMain(h1, r1, h2, r2);
    assert [h1, h1][1] != [h1, h2][1];
  }

  /** The letter loop of a sequence line (backup.cpp:79-86): pushes the
      code of each letter onto current_seq, and throws at the first letter
      outside the alphabet, whose `.at('X')` finds no key. */
  method AppendLineCodes(line: string, letterMap: map<char, int>, currentSeq: seq<int>)
    returns (result: Outcome<seq<int>>)
    requires forall c :: IsCanonical(c) ==> c in letterMap && letterMap[c] == Code(c)
    requires forall c :: c in letterMap ==> IsCanonical(c)
    ensures result.Returned? <==> Fasta.AllCanonical(line)
    ensures result.Returned? ==> result.value == currentSeq + Fasta.LineCodes(line)
  {
    var codes := currentSeq;
    for k := 0 to |line|
      invariant codes == currentSeq + Fasta.LineCodes(line[..k])
      invariant |Fasta.LineCodes(line[..k])| == k
    {
      var letter := line[k];
      assert line[..k + 1][..k] == line[..k];
      if IsCanonical(letter) {
        codes := codes + [letterMap[letter]];
      } else {
        assert 'X' !in letterMap;
        assert !IsCanonical(line[k]);
        return Thrown;
      }
    }
    assert line[..|line|] == line;
    Fasta.FullyCodedIffCanonical(line);
    return Returned(codes);
  }

  /** load_fasta_sequences (backup.cpp:44-97): the decoded pair, or the
      exception from `.at('X')`. */
  method LoadFastaSequences(lines: seq<string>) returns (result: Outcome<(seq<string>, seq<seq<int>>)>)
    ensures result == Decode(lines)
    ensures result.Returned? ==> |result.value.0| == |result.value.1|
  {
    var letterMap := BuildLetterMap();
    var sequences: seq<seq<int>> := [];
    var headers: seq<string> := [];
    var currentHeader: string := "";
    var currentSeq: seq<int> := [];
    for i := 0 to |lines|
      invariant Run(Start(), lines[..i]) == Returned(Fasta.Decoder(currentHeader, currentSeq, headers, sequences))
    {
      var line := lines[i];
      if CharAt(line, 0) == '>' {
        if currentSeq == [] {
          currentHeader := line;
        } else {
          sequences := sequences + [currentSeq];
          headers := headers + [currentHeader];
          currentSeq := [];
        }
      } else {
        var coded := AppendLineCodes(line, letterMap, currentSeq);
        if coded.Thrown? {
          ThrowsIffUnknownResidue(lines);
          assert !Fasta.IsHeaderLine(lines[i]) && !Fasta.AllCanonical(lines[i]);
          return Thrown;
        }
        currentSeq := coded.value;
      }
      RunSnoc(Start(), lines[..i], line);
      assert lines[..i + 1] == lines[..i] + [line];
    }
    assert lines[..|lines|] == lines;
    if currentSeq != [] {
      sequences := sequences + [currentSeq];
      headers := headers + [currentHeader];
    }
    result := Returned((headers, sequences));
    AgreesWithMainOnSequences(lines);
  }

  /** split_seq (backup.cpp:100-116): the windows of `s`, in a fresh vector. */
  method SplitSeq(s: seq<int>, denom: int, length: int) returns (seedSeqs: seq<seq<int>>)
    requires Seeds.SplitDefined(|s|, denom, length)
    ensures seedSeqs == Seeds.Windows(s, denom, length)
  {
    var numFullCycles := Seeds.TruncDiv(|s| - length, denom);
    seedSeqs := [];
    var i := 0;
    while i < numFullCycles
      invariant 0 <= i && (i == 0 || i <= numFullCycles)
      invariant seedSeqs == Seeds.FullWindows(s, denom, length, i)
    {
      Seeds.WindowFits(|s|, denom, length, i);
      seedSeqs := seedSeqs + [s[i * denom .. i * denom + length]];
      i := i + 1;
    }
    assert seedSeqs == if numFullCycles > 0 then Seeds.FullWindows(s, denom, length, numFullCycles) else [];
    var p := numFullCycles * denom;
    if p >= 0 && |s| > p {
      seedSeqs := seedSeqs + [s[|s| - length..]];
    }
  }

  /** The records whose windows load_seed_seq takes, when decoding returns. */
  predicate SeedsDefined(lines: seq<string>) {
    Decode(lines).Returned? ==>
      forall k :: 0 <= k < |Decode(lines).value.1| ==> Seeds.SplitDefined(|Decode(lines).value.1[k]|, Seeds.Stride, Seeds.Width)
  }

  /** load_seed_seq (backup.cpp:118-132): the windows of every record, with
      no length check; the exception of the decoder passes through. When it
      returns, the fragments are main.cpp's and each has 30 residues. */
  method LoadSeedSeq(lines: seq<string>) returns (result: Outcome<seq<seq<int>>>)
    requires SeedsDefined(lines)
    ensures result.Thrown? <==> HasUnknownResidue(lines)
    ensures result.Returned? ==>
      (forall k :: 0 <= k < |Fasta.Decode(lines, [], []).sequences| ==>
         Seeds.SplitDefined(|Fasta.Decode(lines, [], []).sequences[k]|, Seeds.Stride, Seeds.Width)) &&
      result.value == Seeds.AllWindows(Fasta.Decode(lines, [], []).sequences)
    ensures result.Returned? ==> forall k :: 0 <= k < |result.value| ==> |result.value[k]| == Seeds.Width
  {
    ThrowsIffUnknownResidue(lines);
    var headerSeedSeq := LoadFastaSequences(lines);
    if headerSeedSeq.Thrown? {
      return Thrown;
    }
    AgreesWithMainOnSequences(lines);
    var rawSplit := headerSeedSeq.value.1;
    var seedSeqs: seq<seq<int>> := [];
    for i := 0 to |rawSplit|
      invariant seedSeqs == Seeds.AllWindows(rawSplit[..i])
    {
      var split := SplitSeq(rawSplit[i], 10, 30);
      seedSeqs := seedSeqs + split;
      assert rawSplit[..i + 1][..i] == rawSplit[..i];
    }
    assert rawSplit[..|rawSplit|] == rawSplit;
    Seeds.AllWindowsHaveWidth(rawSplit);
    result := Returned(seedSeqs);
  }

  /** read_blosum (backup.cpp:136-200): the loop of main.cpp's read_blosum
      with an ordered set in place of the hash set and the header bound
      written 3 * 23 + 3, which is main.cpp's 3 * 24; it reads the same
      columns and fills the same table. */
  method ReadBlosum(lines: seq<string>) returns (kBlosum: array2<int>, aborted: bool)
    requires !Blosum.Parse(lines).OutOfRange?
    ensures fresh(kBlosum)
    ensures aborted <==> Blosum.Parse(lines).BlankHeaderColumn?
    ensures !aborted ==> Blosum.Holds(kBlosum, Blosum.Parse(lines).rd.table)
  {
    assert 3 * 23 + 3 == 3 * 24;
    kBlosum, aborted := Blosum.ReadBlosum(lines);
  }
}
