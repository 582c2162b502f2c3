/** Written patch sets as one file: the round trip down to characters, and the header counts. */
module PatchFile {
  import opened Collections
  import opened ChunkHeader
  import opened PatchText

  /** Each line followed by its end. */
  function FileOf(lines: seq<string>): string {
    if lines == [] then "" else lines[0] + "\n" + FileOf(lines[1..])
  }

  function LineEnd(file: string): (k: nat)
    ensures k <= |file| && (forall i :: 0 <= i < k ==> file[i] != '\n') && (k < |file| ==> file[k] == '\n')
  {
    if file == "" || file[0] == '\n' then 0 else 1 + LineEnd(file[1..])
  }

  /** The lines of a file without their ends; a last line need not have one. */
  function LinesOf(file: string): seq<string>
    decreases |file|
  {
    if file == "" then []
    else
      var k := LineEnd(file);
      [file[..k]] + if k == |file| then [] else LinesOf(file[k + 1..])
  }

  lemma {:induction false} LinesOfFile(lines: seq<string>)
    requires forall i :: 0 <= i < |lines| ==> '\n' !in lines[i]
    ensures LinesOf(FileOf(lines)) == lines
  {
    if lines != [] {
      var file, rest := FileOf(lines), FileOf(lines[1..]);
      var k := |lines[0]|;
      assert file[k] == '\n' && file[..k] == lines[0] && file[k + 1..] == rest;
      LinesOfFile(lines[1..]);
    }
  }

  // ----- newline-free sets

  ghost predicate ChunkOneLine(chunk: Chunk) {
    forall k :: 0 <= k < |chunk.lines| ==> '\n' !in chunk.lines[k].text
  }

  ghost predicate PatchOneLine(patch: Patch) {
    && '\n' !in patch.src && '\n' !in patch.dst
    && forall j :: 0 <= j < |patch.chunks| ==> ChunkOneLine(patch.chunks[j])
  }

  ghost predicate SetOneLine(patches: seq<Patch>) {
    forall i :: 0 <= i < |patches| ==> PatchOneLine(patches[i])
  }

  ghost predicate AllOneLine(lines: seq<string>) {
    forall i :: 0 <= i < |lines| ==> '\n' !in lines[i]
  }

  lemma DecimalOneLine(n: nat)
    ensures '\n' !in Decimal(n)
  {
    DecimalValue(n);
    forall i | 0 <= i < |Decimal(n)| ensures Decimal(n)[i] != '\n' {
      assert IsDigit(Decimal(n)[i]);
    }
  }

  lemma HeaderOneLine(chunk: Chunk)
    ensures '\n' !in HeaderText(chunk)
  {
    hide Decimal, SrcLines, DstLines;
    DecimalOneLine(chunk.srcPos);
    DecimalOneLine(|SrcLines(chunk.lines)|);
    DecimalOneLine(chunk.dstPos);
    DecimalOneLine(|DstLines(chunk.lines)|);
  }

  lemma {:induction false} LinesOneLine(lines: seq<ChunkLine>)
    requires forall k :: 0 <= k < |lines| ==> '\n' !in lines[k].text
    ensures AllOneLine(LineTexts(lines))
  {
    if lines != [] {
      LinesOneLine(lines[..|lines| - 1]);
    }
  }

  lemma {:induction false} ChunksOneLine(chunks: seq<Chunk>)
    requires forall j :: 0 <= j < |chunks| ==> ChunkOneLine(chunks[j])
    ensures AllOneLine(ChunkTexts(chunks))
  {
    hide HeaderText, LineTexts;
    if chunks != [] {
      ChunksOneLine(chunks[..|chunks| - 1]);
      HeaderOneLine(chunks[|chunks| - 1]);
      LinesOneLine(chunks[|chunks| - 1].lines);
    }
  }

  lemma {:induction false} TextOneLine(patches: seq<Patch>)
    requires SetOneLine(patches)
    ensures AllOneLine(SetText(patches))
  {
    hide ChunkTexts, ChunkOneLine;
    if patches != [] {
      TextOneLine(patches[..|patches| - 1]);
      ChunksOneLine(patches[|patches| - 1].chunks);
    }
  }

  /** Writing a set to a file and parsing the file gives the set back, exactly for the safe sets. */
  lemma FileRoundTrip(patches: seq<Patch>)
    requires SetOneLine(patches)
    ensures ParsePatchset(LinesOf(FileOf(SetText(patches)))) == Some(patches) <==> SetSafe(patches)
  {
    TextOneLine(patches);
    LinesOfFile(SetText(patches));
    RoundTripExactly(patches);
  }

  // ----- header counts

  /** How many of the lines start with one of two characters. */
  ghost function Starting(lines: seq<string>, a: char, b: char): nat {
    if lines == [] then 0
    else
      var last := lines[|lines| - 1];
      Starting(lines[..|lines| - 1], a, b) + if last != "" && (last[0] == a || last[0] == b) then 1 else 0
  }

  lemma {:induction false} SidesCounted(lines: seq<ChunkLine>)
    ensures |SrcLines(lines)| == Starting(LineTexts(lines), '-', ' ')
    ensures |DstLines(lines)| == Starting(LineTexts(lines), '+', ' ')
  {
    if lines != [] {
      var front, last := lines[..|lines| - 1], lines[|lines| - 1];
      SidesCounted(front);
      assert LineTexts(lines)[..|LineTexts(lines)| - 1] == LineTexts(front);
      assert LineText(last)[0] == match last.side case Source => '-' case Destination => '+' case Both => ' ';
    }
  }

  /** The counts in a written header are those of the lines written under it. */
  lemma HeaderCountsMatch(chunk: Chunk)
    ensures var text := ChunkText(chunk);
            ReadHeader(text[0]) == Some(Numbers(chunk.srcPos, Starting(text[1..], '-', ' '),
                                                chunk.dstPos, Starting(text[1..], '+', ' ')))
  {
    hide ReadHeader, WriteHeader, Starting, SrcLines, DstLines, LineTexts;
    var h := Numbers(chunk.srcPos, |SrcLines(chunk.lines)|, chunk.dstPos, |DstLines(chunk.lines)|);
    SidesCounted(chunk.lines);
    assert ChunkText(chunk)[1..] == LineTexts(chunk.lines);
    assert WriteHeader(h) + "" == WriteHeader(h);
    HeaderRoundTrip(h, "");
  }
}
