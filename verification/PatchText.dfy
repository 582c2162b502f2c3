/** Patch sets as values, their written form, and what the parser makes of any list of lines. */
module PatchText {
  import opened Collections
  import opened ChunkHeader

  datatype Side = Source | Destination | Both

  datatype ChunkLine = ChunkLine(side: Side, text: string)

  datatype Chunk = Chunk(srcPos: nat, dstPos: nat, lines: seq<ChunkLine>)

  datatype Patch = Patch(src: string, dst: string, chunks: seq<Chunk>)

  function IsSrc(line: ChunkLine): bool {
    line.side.Source? || line.side.Both?
  }

  function IsDst(line: ChunkLine): bool {
    line.side.Destination? || line.side.Both?
  }

  function SrcLines(lines: seq<ChunkLine>): seq<ChunkLine> {
    if lines == [] then []
    else SrcLines(lines[..|lines| - 1]) + if IsSrc(lines[|lines| - 1]) then [lines[|lines| - 1]] else []
  }

  function DstLines(lines: seq<ChunkLine>): seq<ChunkLine> {
    if lines == [] then []
    else DstLines(lines[..|lines| - 1]) + if IsDst(lines[|lines| - 1]) then [lines[|lines| - 1]] else []
  }

  // ----- the written form

  function LineText(line: ChunkLine): string {
    (match line.side case Source => "-" case Destination => "+" case Both => " ") + line.text
  }

  function LineTexts(lines: seq<ChunkLine>): seq<string> {
    if lines == [] then [] else LineTexts(lines[..|lines| - 1]) + [LineText(lines[|lines| - 1])]
  }

  function HeaderText(chunk: Chunk): string {
    WriteHeader(Numbers(chunk.srcPos, |SrcLines(chunk.lines)|, chunk.dstPos, |DstLines(chunk.lines)|))
  }

  function ChunkText(chunk: Chunk): seq<string> {
    [HeaderText(chunk)] + LineTexts(chunk.lines)
  }

  function ChunkTexts(chunks: seq<Chunk>): seq<string> {
    if chunks == [] then [] else ChunkTexts(chunks[..|chunks| - 1]) + ChunkText(chunks[|chunks| - 1])
  }

  function PatchText(patch: Patch): seq<string> {
    ["--- " + patch.src, "+++ " + patch.dst] + ChunkTexts(patch.chunks)
  }

  function SetText(patches: seq<Patch>): seq<string> {
    if patches == [] then [] else SetText(patches[..|patches| - 1]) + PatchText(patches[|patches| - 1])
  }

  // ----- reading

  /** What kind of line it is; the kinds are tried in this order. */
  datatype Reading =
    | OldName(name: string)
    | NewName(name: string)
    | Head(srcPos: nat, dstPos: nat)
    | Body(line: ChunkLine)
    | Junk

  function Read(line: string): Reading {
    if "--- " <= line then OldName(line[4..])
    else if "+++ " <= line then NewName(line[4..])
    else
      match ReadHeader(line)
      case Some(h) => Head(h.srcPos, h.dstPos)
      case None =>
        if "-" <= line then Body(ChunkLine(Source, line[1..]))
        else if "+" <= line then Body(ChunkLine(Destination, line[1..]))
        else if " " <= line then Body(ChunkLine(Both, line[1..]))
        else Junk
  }

  /** The patches so far and where the current chunk is: it may belong to an earlier patch than the last. */
  datatype Cursor = Cursor(patches: seq<Patch>, at: Option<(nat, nat)>)

  ghost predicate InPlace(c: Cursor) {
    c.at.Some? ==> c.at.value.0 < |c.patches| && c.at.value.1 < |c.patches[c.at.value.0].chunks|
  }

  function AddLine(patches: seq<Patch>, i: nat, j: nat, line: ChunkLine): seq<Patch>
    requires i < |patches| && j < |patches[i].chunks|
  {
    var chunk := patches[i].chunks[j];
    patches[i := patches[i].(chunks := patches[i].chunks[j := chunk.(lines := chunk.lines + [line])])]
  }

  /** None is an exception: a line of no kind, or one that comes before the patch or chunk it needs. */
  function Take(c: Cursor, line: string): (r: Option<Cursor>)
    requires InPlace(c)
    ensures r.Some? ==> InPlace(r.value)
  {
    match Read(line)
    case OldName(name) => Some(c.(patches := c.patches + [Patch(name, "", [])]))
    case NewName(name) =>
      if c.patches == [] then None
      else
        var last := |c.patches| - 1;
        Some(c.(patches := c.patches[last := c.patches[last].(dst := name)]))
    case Head(srcPos, dstPos) =>
      if c.patches == [] then None
      else
        var last := |c.patches| - 1;
        var patch := c.patches[last];
        Some(Cursor(c.patches[last := patch.(chunks := patch.chunks + [Chunk(srcPos, dstPos, [])])],
                    Some((last, |patch.chunks|))))
    case Body(l) =>
      if c.at.None? then None
      else Some(c.(patches := AddLine(c.patches, c.at.value.0, c.at.value.1, l)))
    case Junk => None
  }

  function TakeAll(c: Cursor, lines: seq<string>): (r: Option<Cursor>)
    requires InPlace(c)
    ensures r.Some? ==> InPlace(r.value)
    decreases |lines|
  {
    if lines == [] then Some(c)
    else
      match Take(c, lines[0])
      case None => None
      case Some(d) => TakeAll(d, lines[1..])
  }

  function ParsePatchset(lines: seq<string>): Option<seq<Patch>> {
    match TakeAll(Cursor([], None), lines)
    case None => None
    case Some(c) => Some(c.patches)
  }

  // ----- lines that read back as themselves

  /** The written line is not taken for the start of a file name line. */
  predicate LineSafe(line: ChunkLine) {
    && (line.side.Source? ==> !("-- " <= line.text))
    && (line.side.Destination? ==> !("++ " <= line.text))
  }

  ghost predicate ChunkSafe(chunk: Chunk) {
    forall k :: 0 <= k < |chunk.lines| ==> LineSafe(chunk.lines[k])
  }

  ghost predicate PatchSafe(patch: Patch) {
    forall j :: 0 <= j < |patch.chunks| ==> ChunkSafe(patch.chunks[j])
  }

  ghost predicate SetSafe(patches: seq<Patch>) {
    forall i :: 0 <= i < |patches| ==> PatchSafe(patches[i])
  }

  lemma ReadLineText(line: ChunkLine)
    ensures LineSafe(line) ==> Read(LineText(line)) == Body(line)
    ensures !LineSafe(line) ==> !Read(LineText(line)).Body?
  {
    hide ReadHeader;
    var text := LineText(line);
    assert text[1..] == line.text && text[0] != '@';
    FirstSame("--- ", text);
    FirstSame("+++ ", text);
    FirstSame("-", text);
    FirstSame("+", text);
    FirstSame(" ", text);
    NoHeader(text);
  }

  lemma NoHeader(text: string)
    requires text != "" && text[0] != '@'
    ensures ReadHeader(text).None?
  {
  }

  lemma FirstSame(s: string, t: string)
    requires s != "" && t != ""
    ensures s <= t <==> s[0] == t[0] && s[1..] <= t[1..]
  {
  }

  lemma ReadHeaderText(chunk: Chunk)
    ensures Read(HeaderText(chunk)) == Head(chunk.srcPos, chunk.dstPos)
  {
    var h := Numbers(chunk.srcPos, |SrcLines(chunk.lines)|, chunk.dstPos, |DstLines(chunk.lines)|);
    hide ReadHeader, Decimal;
    HeaderRoundTrip(h, "");
    assert WriteHeader(h) + "" == WriteHeader(h) && WriteHeader(h)[0] == '@';
    FirstSame("--- ", WriteHeader(h));
    FirstSame("+++ ", WriteHeader(h));
  }

  lemma ReadNames(name: string)
    ensures Read("--- " + name) == OldName(name)
    ensures Read("+++ " + name) == NewName(name)
  {
    hide ReadHeader;
    assert ("--- " + name)[4..] == name && ("+++ " + name)[4..] == name;
    FirstSame("--- ", "+++ " + name);
  }

  /** What each kind of line looks like; a line that is like none of these is of no kind. */
  lemma ReadExactly(line: string)
    ensures forall name :: Read(line) == OldName(name) <==> line == "--- " + name
    ensures forall name :: Read(line) == NewName(name) <==> line == "+++ " + name
    ensures forall a, c :: Read(line) == Head(a, c) <==> exists b, d :: ReadHeader(line) == Some(Numbers(a, b, c, d))
    ensures forall l :: Read(line) == Body(l) <==> line == LineText(l) && LineSafe(l)
  {
    hide ReadHeader;
    assert "--- " <= line ==> line == "--- " + line[4..];
    assert "+++ " <= line ==> line == "+++ " + line[4..];
    forall name ensures Read("--- " + name) == OldName(name) && Read("+++ " + name) == NewName(name) {
      ReadNames(name);
    }
    forall l ensures Read(line) == Body(l) <==> line == LineText(l) && LineSafe(l) {
      ReadLineText(l);
    }
    if line != "" && line[0] != '@' {
      NoHeader(line);
    }
  }

  lemma {:induction false} TakeAllAppend(c: Cursor, first: seq<string>, rest: seq<string>)
    requires InPlace(c)
    ensures TakeAll(c, first + rest) == match TakeAll(c, first) case None => None case Some(d) => TakeAll(d, rest)
    decreases |first|
  {
    hide Take;
    if first == [] {
      assert first + rest == rest;
    } else {
      assert (first + rest)[1..] == first[1..] + rest;
      match Take(c, first[0]) {
        case None =>
        case Some(d) => TakeAllAppend(d, first[1..], rest);
      }
    }
  }

  /** The set after lines were added to the chunk at (i, j). */
  function AddLines(patches: seq<Patch>, i: nat, j: nat, lines: seq<ChunkLine>): seq<Patch>
    requires i < |patches| && j < |patches[i].chunks|
  {
    var chunk := patches[i].chunks[j];
    patches[i := patches[i].(chunks := patches[i].chunks[j := chunk.(lines := chunk.lines + lines)])]
  }

  lemma AddLinesMore(patches: seq<Patch>, i: nat, j: nat, lines: seq<ChunkLine>, line: ChunkLine)
    requires i < |patches| && j < |patches[i].chunks|
    ensures AddLine(AddLines(patches, i, j, lines), i, j, line) == AddLines(patches, i, j, lines + [line])
  {
    var chunks, chunk := patches[i].chunks, patches[i].chunks[j];
    var once, twice := chunk.(lines := chunk.lines + lines), chunk.(lines := chunk.lines + lines + [line]);
    assert chunk.lines + lines + [line] == chunk.lines + (lines + [line]);
    assert chunks[j := once][j := twice] == chunks[j := twice];
    var first, second := patches[i].(chunks := chunks[j := once]), patches[i].(chunks := chunks[j := twice]);
    assert patches[i := first][i := second] == patches[i := second];
  }

  lemma AddNoLines(patches: seq<Patch>, i: nat, j: nat)
    requires i < |patches| && j < |patches[i].chunks|
    ensures AddLines(patches, i, j, []) == patches
  {
    var chunk := patches[i].chunks[j];
    assert chunk.(lines := chunk.lines + []) == chunk;
    assert patches[i].chunks[j := chunk] == patches[i].chunks;
    assert patches[i].(chunks := patches[i].chunks) == patches[i];
  }

  lemma {:induction false} TakeLines(c: Cursor, lines: seq<ChunkLine>)
    requires InPlace(c) && c.at.Some?
    requires forall k :: 0 <= k < |lines| ==> LineSafe(lines[k])
    ensures TakeAll(c, LineTexts(lines))
         == Some(c.(patches := AddLines(c.patches, c.at.value.0, c.at.value.1, lines)))
  {
    hide Read, LineText, LineSafe, AddLine, AddLines;
    var (i, j) := c.at.value;
    if lines == [] {
      AddNoLines(c.patches, i, j);
    } else {
      var front, last := lines[..|lines| - 1], lines[|lines| - 1];
      TakeLines(c, front);
      var d := TakeAll(c, LineTexts(front)).value;
      TakeAllAppend(c, LineTexts(front), [LineText(last)]);
      ReadLineText(last);
      AddLinesMore(c.patches, i, j, front, last);
      assert front + [last] == lines;
    }
  }

  /** The set with one more chunk in its last patch. */
  function AddChunks(patches: seq<Patch>, chunks: seq<Chunk>): seq<Patch>
    requires patches != []
  {
    var last := |patches| - 1;
    patches[last := patches[last].(chunks := patches[last].chunks + chunks)]
  }

  lemma TakeChunk(c: Cursor, chunk: Chunk)
    requires InPlace(c) && c.patches != [] && ChunkSafe(chunk)
    ensures var r := TakeAll(c, ChunkText(chunk)); r.Some? && r.value.patches == AddChunks(c.patches, [chunk])
  {
    hide Read, HeaderText, LineTexts;
    var last := |c.patches| - 1;
    var n := |c.patches[last].chunks|;
    var empty := Chunk(chunk.srcPos, chunk.dstPos, []);
    ReadHeaderText(chunk);
    var d := Cursor(AddChunks(c.patches, [empty]), Some((last, n)));
    assert Take(c, HeaderText(chunk)) == Some(d);
    TakeAllAppend(c, [HeaderText(chunk)], LineTexts(chunk.lines));
    TakeLines(d, chunk.lines);
    FilledChunk(c.patches, chunk);
  }

  lemma FilledChunk(patches: seq<Patch>, chunk: Chunk)
    requires patches != []
    ensures AddLines(AddChunks(patches, [Chunk(chunk.srcPos, chunk.dstPos, [])]),
                     |patches| - 1, |patches[|patches| - 1].chunks|, chunk.lines)
         == AddChunks(patches, [chunk])
  {
    var chunks := patches[|patches| - 1].chunks;
    var empty := Chunk(chunk.srcPos, chunk.dstPos, []);
    assert empty.(lines := empty.lines + chunk.lines) == chunk by { assert [] + chunk.lines == chunk.lines; }
    assert (chunks + [empty])[|chunks| := chunk] == chunks + [chunk];
  }

  lemma {:induction false} TakeChunks(c: Cursor, chunks: seq<Chunk>)
    requires InPlace(c) && c.patches != []
    requires forall j :: 0 <= j < |chunks| ==> ChunkSafe(chunks[j])
    ensures var r := TakeAll(c, ChunkTexts(chunks)); r.Some? && r.value.patches == AddChunks(c.patches, chunks)
  {
    hide Take, ChunkText, ChunkSafe;
    var last := c.patches[|c.patches| - 1];
    if chunks == [] {
      assert last.(chunks := last.chunks + []) == last by { assert last.chunks + [] == last.chunks; }
    } else {
      var front, chunk := chunks[..|chunks| - 1], chunks[|chunks| - 1];
      TakeChunks(c, front);
      var d := TakeAll(c, ChunkTexts(front)).value;
      TakeAllAppend(c, ChunkTexts(front), ChunkText(chunk));
      TakeChunk(d, chunk);
      assert last.chunks + front + [chunk] == last.chunks + chunks;
    }
  }

  lemma TakePatch(c: Cursor, patch: Patch)
    requires InPlace(c) && PatchSafe(patch)
    ensures var r := TakeAll(c, PatchText(patch)); r.Some? && r.value.patches == c.patches + [patch]
  {
    hide Read, ChunkTexts, ChunkSafe;
    var names := ["--- " + patch.src, "+++ " + patch.dst];
    ReadNames(patch.src);
    ReadNames(patch.dst);
    var d := Cursor(c.patches + [Patch(patch.src, "", [])], c.at);
    var e := Cursor(c.patches + [Patch(patch.src, patch.dst, [])], c.at);
    assert Take(c, names[0]) == Some(d);
    assert d.patches[|c.patches| := Patch(patch.src, patch.dst, [])] == e.patches;
    assert Take(d, names[1]) == Some(e);
    assert names[1..] == ["+++ " + patch.dst] && names[1..][1..] == [];
    assert TakeAll(d, names[1..]) == Some(e);
    TakeAllAppend(c, names, ChunkTexts(patch.chunks));
    TakeChunks(e, patch.chunks);
    assert [] + patch.chunks == patch.chunks;
  }

  lemma {:induction false} TakeSet(patches: seq<Patch>)
    requires SetSafe(patches)
    ensures var r := TakeAll(Cursor([], None), SetText(patches)); r.Some? && r.value.patches == patches
  {
    hide Take, PatchText, PatchSafe;
    if patches != [] {
      var front, patch := patches[..|patches| - 1], patches[|patches| - 1];
      TakeSet(front);
      TakeAllAppend(Cursor([], None), SetText(front), PatchText(patch));
      TakePatch(TakeAll(Cursor([], None), SetText(front)).value, patch);
    }
  }

  // ----- and only those: an unsafe line is never read as a line of a chunk

  ghost function ChunkSize(chunks: seq<Chunk>): nat {
    if chunks == [] then 0 else ChunkSize(chunks[..|chunks| - 1]) + |chunks[|chunks| - 1].lines|
  }

  ghost function Size(patches: seq<Patch>): nat {
    if patches == [] then 0 else Size(patches[..|patches| - 1]) + ChunkSize(patches[|patches| - 1].chunks)
  }

  ghost function BodyReads(lines: seq<string>): nat {
    if lines == [] then 0
    else BodyReads(lines[..|lines| - 1]) + if Read(lines[|lines| - 1]).Body? then 1 else 0
  }

  lemma {:induction false} ChunkSizeUpdate(chunks: seq<Chunk>, j: nat, chunk: Chunk)
    requires j < |chunks|
    ensures ChunkSize(chunks[j := chunk]) + |chunks[j].lines| == ChunkSize(chunks) + |chunk.lines|
  {
    var after, front := chunks[j := chunk], chunks[..|chunks| - 1];
    if j == |chunks| - 1 {
      assert after[..|chunks| - 1] == front;
    } else {
      assert after[..|chunks| - 1] == front[j := chunk];
      ChunkSizeUpdate(front, j, chunk);
    }
  }

  lemma {:induction false} SizeUpdate(patches: seq<Patch>, i: nat, patch: Patch)
    requires i < |patches|
    ensures Size(patches[i := patch]) + ChunkSize(patches[i].chunks) == Size(patches) + ChunkSize(patch.chunks)
  {
    var after, front := patches[i := patch], patches[..|patches| - 1];
    if i == |patches| - 1 {
      assert after[..|patches| - 1] == front;
    } else {
      assert after[..|patches| - 1] == front[i := patch];
      SizeUpdate(front, i, patch);
    }
  }

  lemma TakeSize(c: Cursor, line: string)
    requires InPlace(c) && Take(c, line).Some?
    ensures Size(Take(c, line).value.patches) == Size(c.patches) + if Read(line).Body? then 1 else 0
  {
    hide Read, Size, ChunkSize, AddLine;
    var last := |c.patches| - 1;
    match Read(line)
    case OldName(name) => SizePush(c.patches, Patch(name, "", []));
    case NewName(name) => SizeUpdate(c.patches, last, c.patches[last].(dst := name));
    case Head(srcPos, dstPos) => HeadSize(c.patches, Chunk(srcPos, dstPos, []));
    case Body(l) => AddLineSize(c.patches, c.at.value.0, c.at.value.1, l);
    case Junk =>
  }

  lemma SizePush(patches: seq<Patch>, patch: Patch)
    ensures Size(patches + [patch]) == Size(patches) + ChunkSize(patch.chunks)
    ensures ChunkSize([]) == 0
  {
  }

  lemma HeadSize(patches: seq<Patch>, chunk: Chunk)
    requires patches != [] && chunk.lines == []
    ensures var last := |patches| - 1;
            Size(patches[last := patches[last].(chunks := patches[last].chunks + [chunk])]) == Size(patches)
  {
  }

  lemma AddLineSize(patches: seq<Patch>, i: nat, j: nat, line: ChunkLine)
    requires i < |patches| && j < |patches[i].chunks|
    ensures Size(AddLine(patches, i, j, line)) == Size(patches) + 1
  {
    hide Size, ChunkSize;
    var chunks, chunk := patches[i].chunks, patches[i].chunks[j].(lines := patches[i].chunks[j].lines + [line]);
    ChunkSizeUpdate(chunks, j, chunk);
    SizeUpdate(patches, i, patches[i].(chunks := chunks[j := chunk]));
  }

  lemma {:induction false} TakeAllSize(c: Cursor, lines: seq<string>)
    requires InPlace(c) && TakeAll(c, lines).Some?
    ensures Size(TakeAll(c, lines).value.patches) == Size(c.patches) + BodyReads(lines)
    decreases |lines|
  {
    hide Take, Read, Size;
    if lines != [] {
      var front, last := lines[..|lines| - 1], lines[|lines| - 1];
      assert lines == front + [last];
      TakeAllAppend(c, front, [last]);
      TakeAllSize(c, front);
      var d := TakeAll(c, front).value;
      TakeSize(d, last);
    }
  }

  // ----- how many lines of a written set are read back as chunk lines

  ghost function Unsafe(lines: seq<ChunkLine>): nat {
    if lines == [] then 0 else Unsafe(lines[..|lines| - 1]) + if LineSafe(lines[|lines| - 1]) then 0 else 1
  }

  ghost function ChunksUnsafe(chunks: seq<Chunk>): nat {
    if chunks == [] then 0 else ChunksUnsafe(chunks[..|chunks| - 1]) + Unsafe(chunks[|chunks| - 1].lines)
  }

  ghost function SetUnsafe(patches: seq<Patch>): nat {
    if patches == [] then 0 else SetUnsafe(patches[..|patches| - 1]) + ChunksUnsafe(patches[|patches| - 1].chunks)
  }

  lemma {:induction false} NoneUnsafe(lines: seq<ChunkLine>)
    ensures Unsafe(lines) == 0 ==> forall k :: 0 <= k < |lines| ==> LineSafe(lines[k])
  {
    hide LineSafe;
    if lines != [] {
      NoneUnsafe(lines[..|lines| - 1]);
    }
  }

  lemma {:induction false} NoChunksUnsafe(chunks: seq<Chunk>)
    ensures ChunksUnsafe(chunks) == 0 ==> forall j :: 0 <= j < |chunks| ==> ChunkSafe(chunks[j])
  {
    hide LineSafe;
    if chunks != [] {
      NoChunksUnsafe(chunks[..|chunks| - 1]);
      NoneUnsafe(chunks[|chunks| - 1].lines);
    }
  }

  lemma {:induction false} NoSetUnsafe(patches: seq<Patch>)
    ensures SetUnsafe(patches) == 0 ==> SetSafe(patches)
  {
    hide ChunkSafe;
    if patches != [] {
      NoSetUnsafe(patches[..|patches| - 1]);
      NoChunksUnsafe(patches[|patches| - 1].chunks);
    }
  }

  lemma {:induction false} BodyReadsJoin(first: seq<string>, rest: seq<string>)
    ensures BodyReads(first + rest) == BodyReads(first) + BodyReads(rest)
  {
    hide Read;
    if rest == [] {
      assert first + rest == first;
    } else {
      assert (first + rest)[..|first + rest| - 1] == first + rest[..|rest| - 1];
      BodyReadsJoin(first, rest[..|rest| - 1]);
    }
  }

  lemma {:induction false} LinesRead(lines: seq<ChunkLine>)
    ensures BodyReads(LineTexts(lines)) + Unsafe(lines) == |lines|
  {
    hide Read, LineText, LineSafe;
    if lines != [] {
      var front, last := lines[..|lines| - 1], lines[|lines| - 1];
      LinesRead(front);
      ReadLineText(last);
      assert LineTexts(lines)[..|LineTexts(lines)| - 1] == LineTexts(front);
    }
  }

  lemma {:induction false} ChunksRead(chunks: seq<Chunk>)
    ensures BodyReads(ChunkTexts(chunks)) + ChunksUnsafe(chunks) == ChunkSize(chunks)
  {
    hide Read, HeaderText, LineTexts, LineSafe;
    if chunks != [] {
      var front, chunk := chunks[..|chunks| - 1], chunks[|chunks| - 1];
      ChunksRead(front);
      LinesRead(chunk.lines);
      ReadHeaderText(chunk);
      BodyReadsJoin([HeaderText(chunk)], LineTexts(chunk.lines));
      BodyReadsJoin(ChunkTexts(front), ChunkText(chunk));
    }
  }

  lemma {:induction false} SetRead(patches: seq<Patch>)
    ensures BodyReads(SetText(patches)) + SetUnsafe(patches) == Size(patches)
  {
    hide Read, ChunkTexts;
    if patches != [] {
      var front, patch := patches[..|patches| - 1], patches[|patches| - 1];
      var names := ["--- " + patch.src, "+++ " + patch.dst];
      SetRead(front);
      ChunksRead(patch.chunks);
      ReadNames(patch.src);
      ReadNames(patch.dst);
      assert names == [names[0]] + [names[1]];
      BodyReadsJoin([names[0]], [names[1]]);
      BodyReadsJoin(names, ChunkTexts(patch.chunks));
      BodyReadsJoin(SetText(front), PatchText(patch));
    }
  }

  /** Parsing the written lines gives the set back exactly if no written line looks like a file name line. */
  lemma RoundTripExactly(patches: seq<Patch>)
    ensures ParsePatchset(SetText(patches)) == Some(patches) <==> SetSafe(patches)
  {
    hide SetText, SetSafe;
    if SetSafe(patches) {
      TakeSet(patches);
    }
    if ParsePatchset(SetText(patches)) == Some(patches) {
      TakeAllSize(Cursor([], None), SetText(patches));
      SetRead(patches);
      NoSetUnsafe(patches);
    }
  }

  // ----- whatever was read can be written and read again

  lemma TakeKeepsSafe(c: Cursor, line: string)
    requires InPlace(c) && SetSafe(c.patches) && Take(c, line).Some?
    ensures SetSafe(Take(c, line).value.patches)
  {
    hide ReadHeader;
    assert Read(line).Body? ==> LineSafe(Read(line).line) by {
      if line != "" {
        FirstSame("--- ", line);
        FirstSame("+++ ", line);
      }
    }
    hide Read, LineSafe;
  }

  lemma {:induction false} TakeAllKeepsSafe(c: Cursor, lines: seq<string>)
    requires InPlace(c) && SetSafe(c.patches) && TakeAll(c, lines).Some?
    ensures SetSafe(TakeAll(c, lines).value.patches)
    decreases |lines|
  {
    hide Take, SetSafe;
    if lines != [] {
      TakeKeepsSafe(c, lines[0]);
      TakeAllKeepsSafe(Take(c, lines[0]).value, lines[1..]);
    }
  }

  /** Writing what was parsed and parsing it again changes nothing, whatever the first lines were. */
  lemma ReadWriteRead(lines: seq<string>)
    requires ParsePatchset(lines).Some?
    ensures ParsePatchset(SetText(ParsePatchset(lines).value)) == ParsePatchset(lines)
  {
    hide SetText, TakeAll;
    TakeAllKeepsSafe(Cursor([], None), lines);
    RoundTripExactly(ParsePatchset(lines).value);
  }

  // ----- which files are parsed at all

  ghost predicate SomeOldName(lines: seq<string>) {
    exists k :: 0 <= k < |lines| && Read(lines[k]).OldName?
  }

  ghost predicate SomeHead(lines: seq<string>) {
    exists k :: 0 <= k < |lines| && Read(lines[k]).Head?
  }

  /** A line of its kind may come after these. */
  ghost predicate MayFollow(before: seq<string>, line: string) {
    match Read(line)
    case OldName(_) => true
    case NewName(_) => SomeOldName(before)
    case Head(_, _) => SomeOldName(before)
    case Body(_) => SomeHead(before)
    case Junk => false
  }

  ghost predicate InOrder(lines: seq<string>) {
    forall k :: 0 <= k < |lines| ==> MayFollow(lines[..k], lines[k])
  }

  lemma OneMoreLine(lines: seq<string>, line: string)
    ensures SomeOldName(lines + [line]) <==> SomeOldName(lines) || Read(line).OldName?
    ensures SomeHead(lines + [line]) <==> SomeHead(lines) || Read(line).Head?
    ensures InOrder(lines + [line]) <==> InOrder(lines) && MayFollow(lines, line)
    ensures InOrder([]) && !SomeOldName([]) && !SomeHead([])
  {
    hide Read, MayFollow;
    var more := lines + [line];
    assert more[|lines|] == line && more[..|lines|] == lines;
    forall k | 0 <= k < |lines| ensures more[k] == lines[k] && more[..k] == lines[..k] {
    }
  }

  /** The parser has a patch once it has read an old name, and a chunk once it has read a head. */
  lemma {:induction false} TakesInOrder(lines: seq<string>)
    ensures TakeAll(Cursor([], None), lines).Some? <==> InOrder(lines)
    ensures TakeAll(Cursor([], None), lines).Some? ==>
      var c := TakeAll(Cursor([], None), lines).value;
      (c.patches != [] <==> SomeOldName(lines)) && (c.at.Some? <==> SomeHead(lines))
  {
    hide Read, AddLine, InOrder, SomeOldName, SomeHead;
    if lines == [] {
      OneMoreLine([], "");
    } else {
      var front, last := lines[..|lines| - 1], lines[|lines| - 1];
      assert lines == front + [last];
      TakesInOrder(front);
      TakeAllAppend(Cursor([], None), front, [last]);
      OneMoreLine(front, last);
      if TakeAll(Cursor([], None), front).Some? {
      }
    }
  }

  /**
   Parsing succeeds exactly if no line is of no kind, an old name comes before every new name and every
   chunk header, and a chunk header before every chunk line.
   */
  lemma ParsesInOrder(lines: seq<string>)
    ensures ParsePatchset(lines).Some? <==> InOrder(lines)
  {
    hide TakeAll, InOrder;
    TakesInOrder(lines);
  }
}
