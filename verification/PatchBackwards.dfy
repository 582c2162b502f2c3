/** The patch set of a file read from its end, and that the parser, reading from the front, makes the same. */
module PatchBackwards {
  import opened Collections
  import opened PatchText

  /**
   What some lines at the end of a file hold: chunk lines that belong to a chunk header further up, chunks and
   a new name that belong to an old name further up, and whole patches.
   */
  datatype Tail = Tail(lines: seq<ChunkLine>, chunks: seq<Chunk>, dst: Option<string>, patches: seq<Patch>)

  /**
   One more line in front. Only a chunk header takes up chunk lines, so those in front of it belong to the last
   chunk of an earlier patch; of several new names the last one counts.
   */
  function InFront(line: string, t: Tail): Tail {
    match Read(line)
    case OldName(name) =>
      var patch := Patch(name, if t.dst.Some? then t.dst.value else "", t.chunks);
      Tail(t.lines, [], None, [patch] + t.patches)
    case NewName(name) => if t.dst.Some? then t else t.(dst := Some(name))
    case Head(srcPos, dstPos) => t.(lines := [], chunks := [Chunk(srcPos, dstPos, t.lines)] + t.chunks)
    case Body(line) => t.(lines := [line] + t.lines)
    case Junk => t
  }

  function ReadBackwards(lines: seq<string>): Tail {
    if lines == [] then Tail([], [], None, []) else InFront(lines[0], ReadBackwards(lines[1..]))
  }

  /** A patch that what follows its last chunk belongs to. */
  function Complete(patch: Patch, t: Tail): Patch {
    Patch(patch.src, if t.dst.Some? then t.dst.value else patch.dst, patch.chunks + t.chunks)
  }

  function Filled(c: Cursor, lines: seq<ChunkLine>): seq<Patch>
    requires InPlace(c)
  {
    if c.at.Some? then AddLines(c.patches, c.at.value.0, c.at.value.1, lines) else c.patches
  }

  /** The set read so far, with what follows put where it belongs. */
  function Joined(c: Cursor, t: Tail): seq<Patch>
    requires InPlace(c)
  {
    var patches := Filled(c, t.lines);
    (if patches == [] then [] else patches[|patches| - 1 := Complete(patches[|patches| - 1], t)]) + t.patches
  }

  lemma JoinedNothing(c: Cursor)
    requires InPlace(c)
    ensures Joined(c, Tail([], [], None, [])) == c.patches
  {
    if c.at.Some? {
      AddNoLines(c.patches, c.at.value.0, c.at.value.1);
    }
    if c.patches != [] {
      var last := c.patches[|c.patches| - 1];
      assert Complete(last, Tail([], [], None, [])) == last by { assert last.chunks + [] == last.chunks; }
    }
  }

  lemma JoinedOldName(c: Cursor, name: string, t: Tail)
    requires InPlace(c)
    ensures var patch := Patch(name, "", []);
            Joined(c.(patches := c.patches + [patch]), t)
            == Joined(c, Tail(t.lines, [], None, [Complete(patch, t)] + t.patches))
  {
    var patch := Patch(name, "", []);
    var now, later := Filled(c, t.lines), Filled(c.(patches := c.patches + [patch]), t.lines);
    assert later == now + [patch];
    if now != [] {
      var last := now[|now| - 1];
      assert Complete(last, Tail(t.lines, [], None, [])) == last by { assert last.chunks + [] == last.chunks; }
    }
  }

  lemma JoinedNewName(c: Cursor, name: string, t: Tail)
    requires InPlace(c) && c.patches != []
    ensures var last := |c.patches| - 1;
            Joined(c.(patches := c.patches[last := c.patches[last].(dst := name)]), t)
            == Joined(c, if t.dst.Some? then t else t.(dst := Some(name)))
  {
  }

  lemma JoinedHead(c: Cursor, srcPos: nat, dstPos: nat, t: Tail)
    requires InPlace(c) && c.patches != []
    ensures var last := |c.patches| - 1;
            var patch := c.patches[last];
            Joined(Cursor(c.patches[last := patch.(chunks := patch.chunks + [Chunk(srcPos, dstPos, [])])],
                          Some((last, |patch.chunks|))), t)
            == Joined(c, t.(lines := [], chunks := [Chunk(srcPos, dstPos, t.lines)] + t.chunks))
  {
    var last := |c.patches| - 1;
    var patch, full := c.patches[last], Chunk(srcPos, dstPos, t.lines);
    if c.at.Some? {
      AddNoLines(c.patches, c.at.value.0, c.at.value.1);
    }
    FilledChunk(c.patches, full);
    assert patch.chunks + [full] + t.chunks == patch.chunks + ([full] + t.chunks);
  }

  lemma JoinedBody(c: Cursor, line: ChunkLine, t: Tail)
    requires InPlace(c) && c.at.Some?
    ensures Joined(c.(patches := AddLine(c.patches, c.at.value.0, c.at.value.1, line)), t)
         == Joined(c, t.(lines := [line] + t.lines))
  {
    var (i, j) := c.at.value;
    var chunks, chunk := c.patches[i].chunks, c.patches[i].chunks[j];
    var once := chunk.(lines := chunk.lines + [line]);
    var all := chunk.(lines := chunk.lines + ([line] + t.lines));
    assert chunk.lines + [line] + t.lines == chunk.lines + ([line] + t.lines);
    assert chunks[j := once][j := all] == chunks[j := all];
  }

  lemma OneLineJoined(c: Cursor, line: string, t: Tail)
    requires InPlace(c) && Take(c, line).Some?
    ensures Joined(Take(c, line).value, t) == Joined(c, InFront(line, t))
  {
    hide Read, Joined, AddLine;
    assert [] + t.chunks == t.chunks;
    match Read(line)
    case OldName(name) => JoinedOldName(c, name, t);
    case NewName(name) => JoinedNewName(c, name, t);
    case Head(srcPos, dstPos) => JoinedHead(c, srcPos, dstPos, t);
    case Body(l) => JoinedBody(c, l, t);
  }

  lemma {:induction false} TakesJoined(c: Cursor, lines: seq<string>)
    requires InPlace(c) && TakeAll(c, lines).Some?
    ensures TakeAll(c, lines).value.patches == Joined(c, ReadBackwards(lines))
    decreases |lines|
  {
    hide Take, Joined, InFront;
    if lines == [] {
      JoinedNothing(c);
    } else {
      TakesJoined(Take(c, lines[0]).value, lines[1..]);
      OneLineJoined(c, lines[0], ReadBackwards(lines[1..]));
    }
  }

  /** Both ways of reading a file that is in order give the same set. */
  lemma ParsesBackwards(lines: seq<string>)
    ensures ParsePatchset(lines) == if InOrder(lines) then Some(ReadBackwards(lines).patches) else None
  {
    hide TakeAll, InOrder, ReadBackwards;
    ParsesInOrder(lines);
    if InOrder(lines) {
      TakesJoined(Cursor([], None), lines);
      assert [] + ReadBackwards(lines).patches == ReadBackwards(lines).patches;
    }
  }
}
