/** The FASTA decoder of main.cpp (load_fasta_sequences): groups the lines of
    a FASTA file into records and codes each residue letter. The lines are the
    result of read_file, taken as input. */
module Fasta {
  import opened Alphabet

  /** A line whose first character is '>' starts a record. */
  predicate IsHeaderLine(line: string) {
    CharAt(line, 0) == '>'
  }

  /** The codes that one sequence line contributes: canonical letters are
      coded, every other character is dropped. */
  function LineCodes(line: string): (r: seq<int>)
    ensures |r| <= |line|
    ensures forall k :: 0 <= k < |r| ==> 0 <= r[k] < 20
  {
    if line == [] then []
    else
      var c := line[|line| - 1];
      LineCodes(line[..|line| - 1]) + (if IsCanonical(c) then [Code(c)] else [])
  }

  /** A sequence line whose every character is a key of letter_int_map. */
  predicate AllCanonical(line: string) {
    forall k :: 0 <= k < |line| ==> IsCanonical(line[k])
  }

  /** A line holding only canonical letters is coded letter by letter. */
  lemma {:induction false} LineCodesOfCanonical(line: string)
    requires AllCanonical(line)
    ensures |LineCodes(line)| == |line|
    ensures forall k :: 0 <= k < |line| ==> LineCodes(line)[k] == Code(line[k])
  {
    if line != [] {
      var init := line[..|line| - 1];
      forall k | 0 <= k < |init|
        ensures IsCanonical(init[k])
      {
        assert init[k] == line[k];
      }
      LineCodesOfCanonical(init);
      assert LineCodes(line) == LineCodes(init) + [Code(line[|line| - 1])];
    }
  }

  /** A line whose every character is coded holds only canonical letters. */
  lemma {:induction false} FullyCodedIsCanonical(line: string)
    requires |LineCodes(line)| == |line|
    ensures AllCanonical(line)
  {
    if line != [] {
      var init := line[..|line| - 1];
      var last := line[|line| - 1];
      assert LineCodes(line) == LineCodes(init) + (if IsCanonical(last) then [Code(last)] else []);
      assert IsCanonical(last) && |LineCodes(init)| == |init|;
      FullyCodedIsCanonical(init);
      forall k | 0 <= k < |line|
        ensures IsCanonical(line[k])
      {
        if k < |init| {
          assert line[k] == init[k];
        }
      }
    }
  }

  /** Every character of a line is coded exactly when the line holds only
      canonical letters. */
  lemma FullyCodedIffCanonical(line: string)
    ensures |LineCodes(line)| == |line| <==> AllCanonical(line)
  {
    if |LineCodes(line)| == |line| {
      FullyCodedIsCanonical(line);
    } else if AllCanonical(line) {
      LineCodesOfCanonical(line);
    }
  }

  /** A line contributes nothing exactly when it holds no canonical letter. */
  lemma {:induction false} LineCodesEmpty(line: string)
    ensures LineCodes(line) == [] <==> forall k :: 0 <= k < |line| ==> !IsCanonical(line[k])
  {
    if line != [] {
      var init := line[..|line| - 1];
      LineCodesEmpty(init);
      if LineCodes(line) == [] {
        forall k | 0 <= k < |line|
          ensures !IsCanonical(line[k])
        {
          if k < |init| {
            assert line[k] == init[k];
          }
        }
      }
    }
  }

  /** The decoder's variables: current_header, current_seq and the two
      output vectors. */
  datatype Decoder = Decoder(header: string, current: seq<int>, headers: seq<string>, sequences: seq<seq<int>>)

  /** One pass of the loop body at main.cpp:56-76. */
  function Step(d: Decoder, line: string): Decoder {
    if IsHeaderLine(line) then
      if d.current == [] then d.(header := line)
      else Decoder(line, [], d.headers + [d.header], d.sequences + [d.current])
    else
      d.(current := d.current + LineCodes(line))
  }

  /** The loop over all lines, from decoder state d. */
  function Run(d: Decoder, lines: seq<string>): Decoder {
    if lines == [] then d
    else Step(Run(d, lines[..|lines| - 1]), lines[|lines| - 1])
  }

  /** The flush after the loop (main.cpp:78-81). */
  function Finish(d: Decoder): Decoder {
    if d.current == [] then d
    else Decoder(d.header, [], d.headers + [d.header], d.sequences + [d.current])
  }

  /** What load_fasta_sequences leaves in the caller's vectors, which held
      `headers` and `sequences` on entry. */
  function Decode(lines: seq<string>, headers: seq<string>, sequences: seq<seq<int>>): Decoder {
    Finish(Run(Decoder("", [], headers, sequences), lines))
  }

  lemma RunSnoc(d: Decoder, lines: seq<string>, line: string)
    ensures Run(d, lines + [line]) == Step(Run(d, lines), line)
  {
    assert (lines + [line])[..|lines|] == lines;
  }

  lemma {:induction false} RunSplit(d: Decoder, a: seq<string>, b: seq<string>)
    ensures Run(d, a + b) == Run(Run(d, a), b)
  {
    if b == [] {
      assert a + b == a;
    } else {
      var b' := b[..|b| - 1];
      RunSplit(d, a, b');
      assert a + b == (a + b') + [b[|b| - 1]];
      RunSnoc(d, a + b', b[|b| - 1]);
      RunSnoc(Run(d, a), b', b[|b| - 1]);
      assert b == b' + [b[|b| - 1]];
    }
  }

  /** Both output vectors only grow, and by the same number of entries. */
  lemma {:induction false} RunAppends(d: Decoder, lines: seq<string>)
    ensures var r := Run(d, lines);
      |d.headers| <= |r.headers| && |d.sequences| <= |r.sequences| &&
      r.headers[..|d.headers|] == d.headers && r.sequences[..|d.sequences|] == d.sequences &&
      |r.headers| - |d.headers| == |r.sequences| - |d.sequences|
  {
    if lines != [] {
      RunAppends(d, lines[..|lines| - 1]);
    }
  }

  /** Existing contents of the caller's vectors are kept, and both vectors
      grow by the same count; so the assert at the end holds whenever they
      start with equal sizes. */
  lemma DecodeAppends(lines: seq<string>, headers: seq<string>, sequences: seq<seq<int>>)
    ensures var r := Decode(lines, headers, sequences);
      |headers| <= |r.headers| && |sequences| <= |r.sequences| &&
      r.headers[..|headers|] == headers && r.sequences[..|sequences|] == sequences &&
      |r.headers| - |headers| == |r.sequences| - |sequences|
  {
    RunAppends(Decoder("", [], headers, sequences), lines);
  }

  /** The codes a single line contributes to the stream of residues. */
  function LineContribution(line: string): seq<int> {
    if IsHeaderLine(line) then [] else LineCodes(line)
  }

  /** The codes of all sequence lines, in order. */
  function SequenceCodes(lines: seq<string>): seq<int> {
    if lines == [] then []
    else
      SequenceCodes(lines[..|lines| - 1]) + LineContribution(lines[|lines| - 1])
  }

  /** The concatenation of a list of code sequences. */
  function Flatten(ss: seq<seq<int>>): seq<int> {
    if ss == [] then [] else Flatten(ss[..|ss| - 1]) + ss[|ss| - 1]
  }

  lemma FlattenSnoc(ss: seq<seq<int>>, s: seq<int>)
    ensures Flatten(ss + [s]) == Flatten(ss) + s
  {
    assert (ss + [s])[..|ss|] == ss;
  }

  /** No residue code is lost or duplicated: what is finalised plus what is
      pending equals what was there plus the codes of the lines read. */
  lemma StepConserves(p: Decoder, line: string)
    ensures Flatten(Step(p, line).sequences) + Step(p, line).current
         == Flatten(p.sequences) + p.current + LineContribution(line)
  {
    if IsHeaderLine(line) && p.current != [] {
      FlattenSnoc(p.sequences, p.current);
    }
  }

  lemma {:induction false} RunConserves(d: Decoder, lines: seq<string>)
    ensures Flatten(Run(d, lines).sequences) + Run(d, lines).current
         == Flatten(d.sequences) + d.current + SequenceCodes(lines)
  {
    if lines != [] {
      var init := lines[..|lines| - 1];
      var line := lines[|lines| - 1];
      RunConserves(d, init);
      var p := Run(d, init);
      StepConserves(p, line);
      assert SequenceCodes(lines) == SequenceCodes(init) + LineContribution(line);
    }
  }

  /** The sequences appended by load_fasta_sequences, concatenated, are the
      filtered codes of all non-header lines in order. */
  lemma DecodeConserves(lines: seq<string>, headers: seq<string>, sequences: seq<seq<int>>)
    ensures Flatten(Decode(lines, headers, sequences).sequences) == Flatten(sequences) + SequenceCodes(lines)
  {
    var d := Decoder("", [], headers, sequences);
    RunConserves(d, lines);
    var r := Run(d, lines);
    assert Flatten(d.sequences) + d.current == Flatten(sequences);
    if r.current != [] {
      FlattenSnoc(r.sequences, r.current);
      assert Finish(r).sequences == r.sequences + [r.current];
    } else {
      assert Flatten(r.sequences) + r.current == Flatten(r.sequences);
      assert Finish(r) == r;
    }
  }

  /** A record's codes: non-empty and each in [0, 19]. */
  predicate IsRecordCodes(s: seq<int>) {
    s != [] && InRange(s)
  }

  /** Every code lies in [0, 19]. */
  predicate InRange(s: seq<int>) {
    forall k :: 0 <= k < |s| ==> 0 <= s[k] < 20
  }

  lemma {:induction false} RunRecords(d: Decoder, lines: seq<string>)
    requires InRange(d.current)
    ensures var r := Run(d, lines);
      InRange(r.current) && |d.sequences| <= |r.sequences| &&
      forall k :: |d.sequences| <= k < |r.sequences| ==> IsRecordCodes(r.sequences[k])
  {
    if lines != [] {
      RunRecords(d, lines[..|lines| - 1]);
    }
  }

  /** Each record appended to `sequences` is non-empty and holds codes in [0, 19]. */
  lemma DecodeRecords(lines: seq<string>, headers: seq<string>, sequences: seq<seq<int>>)
    ensures var r := Decode(lines, headers, sequences);
      |sequences| <= |r.sequences| &&
      forall k :: |sequences| <= k < |r.sequences| ==> IsRecordCodes(r.sequences[k])
  {
    RunRecords(Decoder("", [], headers, sequences), lines);
  }

  /** A header of this run: the pending header it started with, or a whole
      '>' line (the '>' kept) taken from the input. */
  predicate HeaderFrom(h: string, start: string, lines: seq<string>) {
    h == start || (h in lines && IsHeaderLine(h))
  }

  lemma {:induction false} RunHeaders(d: Decoder, lines: seq<string>)
    ensures var r := Run(d, lines);
      HeaderFrom(r.header, d.header, lines) && |d.headers| <= |r.headers| &&
      forall k :: |d.headers| <= k < |r.headers| ==> HeaderFrom(r.headers[k], d.header, lines)
  {
    if lines != [] {
      RunHeaders(d, lines[..|lines| - 1]);
      var r := Run(d, lines);
      forall k | |d.headers| <= k < |r.headers|
        ensures HeaderFrom(r.headers[k], d.header, lines)
      {
        assert HeaderFrom(r.headers[k], d.header, lines[..|lines| - 1]);
      }
      assert HeaderFrom(r.header, d.header, lines[..|lines| - 1]) || r.header == lines[|lines| - 1];
    }
  }

  /** Every appended header is a '>' line of the input, kept whole, or ""
      (residues seen before any header). */
  lemma DecodeHeaders(lines: seq<string>, headers: seq<string>, sequences: seq<seq<int>>)
    ensures var r := Decode(lines, headers, sequences);
      |headers| <= |r.headers| &&
      forall k :: |headers| <= k < |r.headers| ==>
        r.headers[k] == "" || (r.headers[k] in lines && r.headers[k][0] == '>')
  {
    RunHeaders(Decoder("", [], headers, sequences), lines);
  }

  /** While the accumulator is non-empty the pending header is the one that
      the first finalised record gets. */
  lemma {:induction false} RunKeepsPendingHeader(d: Decoder, lines: seq<string>)
    requires d.current != []
    ensures var r := Run(d, lines);
      if |r.headers| == |d.headers| then r.header == d.header && r.current != []
      else |r.headers| > |d.headers| && r.headers[|d.headers|] == d.header
  {
    if lines != [] {
      RunKeepsPendingHeader(d, lines[..|lines| - 1]);
    }
  }

  /** Lines without a header line keep the pending header and the output
      vectors, and only grow the accumulator. */
  lemma {:induction false} RunWithoutHeaders(d: Decoder, lines: seq<string>)
    requires forall i :: 0 <= i < |lines| ==> !IsHeaderLine(lines[i])
    ensures var r := Run(d, lines);
      r.header == d.header && r.headers == d.headers && |d.current| <= |r.current|
  {
    if lines != [] {
      RunWithoutHeaders(d, lines[..|lines| - 1]);
    }
  }

  /** Residues before any header line are recorded under the header "":
      line k and every line before it are sequence lines, and line k holds
      a residue. */
  lemma LeadingResiduesGetEmptyHeader(lines: seq<string>, k: nat, headers: seq<string>, sequences: seq<seq<int>>)
    requires k < |lines| && LineCodes(lines[k]) != []
    requires forall i :: 0 <= i <= k ==> !IsHeaderLine(lines[i])
    ensures var r := Decode(lines, headers, sequences);
      |r.headers| > |headers| && r.headers[|headers|] == ""
  {
    var d0 := Decoder("", [], headers, sequences);
    var pre := lines[..k + 1];
    var d1 := Run(d0, pre);
    assert d1.header == "" && d1.headers == headers && d1.current != [] by {
      RunWithoutHeaders(d0, lines[..k]);
      RunSnoc(d0, lines[..k], lines[k]);
      assert pre == lines[..k] + [lines[k]];
    }
    RunSplit(d0, pre, lines[k + 1..]);
    assert pre + lines[k + 1..] == lines;
    RunKeepsPendingHeader(d1, lines[k + 1..]);
  }

  /** A header line followed directly by another has no effect: of
      consecutive headers only the last survives. */
  lemma ConsecutiveHeadersCollapse(pre: seq<string>, h1: string, h2: string, post: seq<string>,
                                   headers: seq<string>, sequences: seq<seq<int>>)
    requires IsHeaderLine(h1) && IsHeaderLine(h2)
    ensures Decode(pre + [h1, h2] + post, headers, sequences) == Decode(pre + [h2] + post, headers, sequences)
  {
    var d0 := Decoder("", [], headers, sequences);
    var p := Run(d0, pre);
    RunSplit(d0, pre + [h1, h2], post);
    RunSplit(d0, pre + [h2], post);
    RunSnoc(d0, pre, h1);
    RunSnoc(d0, pre + [h1], h2);
    assert pre + [h1, h2] == (pre + [h1]) + [h2];
    RunSnoc(d0, pre, h2);
    assert Step(Step(p, h1), h2) == Step(p, h2);
  }

  /** The header lines of the input, in order. */
  function HeaderLines(lines: seq<string>): seq<string> {
    if lines == [] then []
    else
      var line := lines[|lines| - 1];
      HeaderLines(lines[..|lines| - 1]) + (if IsHeaderLine(line) then [line] else [])
  }

  /** Ordinary FASTA: it starts with a header, each header is followed by at
      least one sequence line, and every sequence line holds a residue. */
  predicate OneHeaderPerRecord(lines: seq<string>) {
    |lines| > 0 && IsHeaderLine(lines[0]) && !IsHeaderLine(lines[|lines| - 1]) &&
    (forall i :: 0 <= i < |lines| - 1 && IsHeaderLine(lines[i]) ==> !IsHeaderLine(lines[i + 1])) &&
    (forall i :: 0 <= i < |lines| && !IsHeaderLine(lines[i]) ==> LineCodes(lines[i]) != [])
  }

  lemma {:induction false} PrefixHeaders(lines: seq<string>, n: int)
    requires OneHeaderPerRecord(lines) && 1 <= n <= |lines|
    ensures var r := Run(Decoder("", [], [], []), lines[..n]);
      r.headers + [r.header] == HeaderLines(lines[..n]) &&
      (r.current == [] <==> IsHeaderLine(lines[n - 1]))
  {
    var d0 := Decoder("", [], [], []);
    if n == 1 {
      assert lines[..1] == [lines[0]];
      assert lines[..1][..0] == [];
    } else {
      PrefixHeaders(lines, n - 1);
      assert lines[..n][..n - 1] == lines[..n - 1];
      assert lines[..n][n - 1] == lines[n - 1];
    }
  }

  /** In ordinary FASTA each record carries its own header line: the headers
      produced are exactly the header lines, in order. */
  lemma RecordsKeepTheirHeaders(lines: seq<string>)
    requires OneHeaderPerRecord(lines)
    ensures Decode(lines, [], []).headers == HeaderLines(lines)
  {
    PrefixHeaders(lines, |lines|);
    assert lines[..|lines|] == lines;
  }

  /** Sequence lines only extend the accumulator by their codes. */
  lemma {:induction false} RunBody(d: Decoder, body: seq<string>)
    requires forall i :: 0 <= i < |body| ==> !IsHeaderLine(body[i])
    ensures Run(d, body) == d.(current := d.current + SequenceCodes(body))
  {
    if body != [] {
      var init := body[..|body| - 1];
      var last := body[|body| - 1];
      assert !IsHeaderLine(last);
      forall i | 0 <= i < |init|
        ensures !IsHeaderLine(init[i])
      {
        assert init[i] == body[i];
      }
      RunBody(d, init);
      var c := d.current + SequenceCodes(init);
      assert Run(d, body) == d.(current := c + LineCodes(last)) by {
        assert Run(d, body) == Step(Run(d, init), last);
      }
      assert c + LineCodes(last) == d.current + SequenceCodes(body) by {
        assert SequenceCodes(body) == SequenceCodes(init) + LineCodes(last);
      }
    }
  }

  /** Record boundaries: a header line followed by sequence lines holding
      residues adds exactly one record, that header with exactly the codes
      of those lines, after the records of what came before. */
  lemma RecordAppend(pre: seq<string>, h: string, body: seq<string>,
                     headers: seq<string>, sequences: seq<seq<int>>)
    requires IsHeaderLine(h)
    requires forall i :: 0 <= i < |body| ==> !IsHeaderLine(body[i])
    requires SequenceCodes(body) != []
    ensures Decode(pre + [h] + body, headers, sequences).headers == Decode(pre, headers, sequences).headers + [h]
    ensures Decode(pre + [h] + body, headers, sequences).sequences
         == Decode(pre, headers, sequences).sequences + [SequenceCodes(body)]
  {
    var d0 := Decoder("", [], headers, sequences);
    var p := Run(d0, pre);
    var f := Finish(p);
    var q := Decoder(h, [], f.headers, f.sequences);
    assert Run(d0, pre + [h]) == q by {
      RunSnoc(d0, pre, h);
    }
    assert Run(d0, pre + [h] + body) == q.(current := SequenceCodes(body)) by {
      RunSplit(d0, pre + [h], body);
      RunBody(q, body);
      assert [] + SequenceCodes(body) == SequenceCodes(body);
    }
  }

  /** load_fasta_sequences: appends the decoded records to the caller's
      `headers` and `sequences`. Both grow by the same count, so the closing
      assert holds exactly when the caller's vectors had equal sizes. */
  method LoadFastaSequences(lines: seq<string>, headers: seq<string>, sequences: seq<seq<int>>)
    returns (headers': seq<string>, sequences': seq<seq<int>>)
    ensures headers' == Decode(lines, headers, sequences).headers
    ensures sequences' == Decode(lines, headers, sequences).sequences
    ensures |headers'| - |sequences'| == |headers| - |sequences|
  {
    var letterMap := BuildLetterMap();
    headers', sequences' := headers, sequences;
    var currentHeader: string := "";
    var currentSeq: seq<int> := [];
    ghost var d0 := Decoder("", [], headers, sequences);
    for i := 0 to |lines|
      invariant Decoder(currentHeader, currentSeq, headers', sequences') == Run(d0, lines[..i])
    {
      var line := lines[i];
      if CharAt(line, 0) == '>' {
        if currentSeq == [] {
          currentHeader := line;
        } else {
          sequences' := sequences' + [currentSeq];
          headers' := headers' + [currentHeader];
          currentHeader := line;
          currentSeq := [];
        }
      } else {
        ghost var before := currentSeq;
        for k := 0 to |line|
          invariant currentSeq == before + LineCodes(line[..k])
        {
          var letter := line[k];
          assert line[..k + 1][..k] == line[..k];
          if IsCanonical(letter) {
            currentSeq := currentSeq + [letterMap[letter]];
          }
        }
        assert line[..|line|] == line;
      }
      RunSnoc(d0, lines[..i], line);
      assert lines[..i + 1] == lines[..i] + [line];
    }
    assert lines[..|lines|] == lines;
    if currentSeq != [] {
      sequences' := sequences' + [currentSeq];
      headers' := headers' + [currentHeader];
    }
    DecodeAppends(lines, headers, sequences);
  }
}
