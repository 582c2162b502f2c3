/** Patches and chunks as objects that the parser fills in line by line. */
module PatchSet {
  import opened Collections
  import opened ChunkHeader
  import T = PatchText

  class PatchChunk {
    const srcPos: nat
    const dstPos: nat
    var lines: seq<T.ChunkLine>
    ghost const place: (nat, nat)   // its patch's number and its own number there

    constructor (srcPos: nat, dstPos: nat, ghost place: (nat, nat))
      ensures Value() == T.Chunk(srcPos, dstPos, []) && this.place == place
    {
      this.srcPos, this.dstPos, lines, this.place := srcPos, dstPos, [], place;
    }

    ghost function Value(): T.Chunk
      reads this
    {
      T.Chunk(srcPos, dstPos, lines)
    }

    method AddLine(line: T.ChunkLine)
      modifies this
      ensures lines == old(lines) + [line]
    {
      lines := lines + [line];
    }

    method Src() returns (src: seq<T.ChunkLine>)
      ensures src == T.SrcLines(lines)
    {
      src := [];
      for i := 0 to |lines|
        invariant src == T.SrcLines(lines[..i])
      {
        assert lines[..i + 1][..i] == lines[..i];
        if T.IsSrc(lines[i]) {
          src := src + [lines[i]];
        }
      }
      assert lines[..|lines|] == lines;
    }

    method Dst() returns (dst: seq<T.ChunkLine>)
      ensures dst == T.DstLines(lines)
    {
      dst := [];
      for i := 0 to |lines|
        invariant dst == T.DstLines(lines[..i])
      {
        assert lines[..i + 1][..i] == lines[..i];
        if T.IsDst(lines[i]) {
          dst := dst + [lines[i]];
        }
      }
      assert lines[..|lines|] == lines;
    }

    method Write(file: seq<string>) returns (written: seq<string>)
      ensures written == file + T.ChunkText(Value())
    {
      hide WriteHeader, T.SrcLines, T.DstLines, T.LineText;
      var src := Src();
      var dst := Dst();
      written := file + [WriteHeader(Numbers(srcPos, |src|, dstPos, |dst|))];
      for i := 0 to |lines|
        invariant written == file + [T.HeaderText(Value())] + T.LineTexts(lines[..i])
      {
        assert lines[..i + 1][..i] == lines[..i];
        written := written + [T.LineText(lines[i])];
      }
      assert lines[..|lines|] == lines;
    }
  }

  class Patch {
    var src: string
    var dst: string
    var chunks: seq<PatchChunk>
    ghost const number: nat         // its place in the patch set

    constructor (ghost number: nat)
      ensures src == "" && dst == "" && chunks == [] && this.number == number
    {
      src, dst, chunks, this.number := "", "", [], number;
    }

    method AddChunk(chunk: PatchChunk)
      modifies this
      ensures chunks == old(chunks) + [chunk] && src == old(src) && dst == old(dst)
    {
      chunks := chunks + [chunk];
    }

    method SetSrc(name: string)
      modifies this`src
      ensures src == name
    {
      src := name;
    }

    method SetDst(name: string)
      modifies this`dst
      ensures dst == name
    {
      dst := name;
    }

    method Write(file: seq<string>, ghost value: T.Patch) returns (written: seq<string>)
      requires Holds(this, value)
      ensures written == file + T.PatchText(value)
    {
      hide T.ChunkText;
      var names := ["--- " + src, "+++ " + dst];
      written := file + names;
      for i := 0 to |chunks|
        invariant written == file + names + T.ChunkTexts(value.chunks[..i])
      {
        assert value.chunks[..i + 1][..i] == value.chunks[..i];
        written := chunks[i].Write(written);
      }
      assert value.chunks[..|chunks|] == value.chunks;
    }
  }

  /** The object's present contents. */
  ghost predicate Holds(patch: Patch, value: T.Patch)
    reads patch, patch.chunks
  {
    && patch.src == value.src && patch.dst == value.dst && |patch.chunks| == |value.chunks|
    && forall j :: 0 <= j < |patch.chunks| ==> patch.chunks[j].Value() == value.chunks[j]
  }

  ghost function AllChunks(patches: seq<Patch>): set<PatchChunk>
    reads patches
  {
    set i, j | 0 <= i < |patches| && 0 <= j < |patches[i].chunks| :: patches[i].chunks[j]
  }

  /** Every patch and every chunk knows its place; so none is in two places. */
  ghost predicate Separate(patches: seq<Patch>)
    reads patches
  {
    forall i :: 0 <= i < |patches| ==>
      && patches[i].number == i
      && forall j :: 0 <= j < |patches[i].chunks| ==> patches[i].chunks[j].place == (i, j)
  }

  ghost predicate AllHold(patches: seq<Patch>, values: seq<T.Patch>)
    reads patches, AllChunks(patches)
  {
    |patches| == |values| && forall i :: 0 <= i < |patches| ==> Holds(patches[i], values[i])
  }

  /** The objects are in the state the cursor describes. */
  ghost predicate Matches(
      patches: seq<Patch>, currentPatch: Patch?, currentChunk: PatchChunk?, c: T.Cursor)
    reads patches, AllChunks(patches)
  {
    && T.InPlace(c) && Separate(patches) && AllHold(patches, c.patches)
    && (if patches == [] then currentPatch == null else currentPatch == patches[|patches| - 1])
    && (if c.at.None? then currentChunk == null
        else
          && c.at.value.1 < |patches[c.at.value.0].chunks|
          && currentChunk == patches[c.at.value.0].chunks[c.at.value.1])
  }

  /** ok is false when an exception is raised. */
  method ParsePatchset(lines: seq<string>) returns (ok: bool, patchset: seq<Patch>)
    ensures ok <==> T.ParsePatchset(lines).Some?
    ensures ok ==> AllHold(patchset, T.ParsePatchset(lines).value)
    ensures ok ==> Separate(patchset) && fresh(patchset) && fresh(AllChunks(patchset))
  {
    hide T.Take, T.Read;
    patchset := [];
    var currentPatch: Patch?, currentChunk: PatchChunk? := null, null;
    ghost var c := T.Cursor([], None);
    for i := 0 to |lines|
      invariant fresh(patchset) && fresh(AllChunks(patchset))
      invariant Matches(patchset, currentPatch, currentChunk, c)
      invariant T.TakeAll(T.Cursor([], None), lines) == T.TakeAll(c, lines[i..])
    {
      assert lines[i..][0] == lines[i] && lines[i..][1..] == lines[i + 1..];
      ok, patchset, currentPatch, currentChunk := TakeLine(patchset, currentPatch, currentChunk, lines[i], c);
      if !ok {
        return;
      }
      c := T.Take(c, lines[i]).value;
    }
    assert lines[|lines|..] == [];
    ok := true;
  }

  /** The body of the loop over lines. */
  method TakeLine(before: seq<Patch>, patch0: Patch?, chunk0: PatchChunk?, line: string, ghost c: T.Cursor)
    returns (ok: bool, patchset: seq<Patch>, currentPatch: Patch?, currentChunk: PatchChunk?)
    requires Matches(before, patch0, chunk0, c)
    modifies before, AllChunks(before)
    ensures ok <==> T.Take(c, line).Some?
    ensures ok ==> Matches(patchset, currentPatch, currentChunk, T.Take(c, line).value)
    ensures ok ==> fresh(Elems(patchset) - Elems(before)) && fresh(AllChunks(patchset) - old(AllChunks(before)))
  {
    hide T.Read, Separate, Holds;
    ok, patchset, currentPatch, currentChunk := true, before, patch0, chunk0;
    var reading := T.Read(line);
    match reading {
      case OldName(name) =>
        patchset, currentPatch := StartPatch(before, patch0, chunk0, name, c);
      case NewName(name) =>
        if currentPatch == null {
          return false, before, patch0, chunk0;
        }
        Rename(before, currentPatch, chunk0, name, c);
      case Head(srcPos, dstPos) =>
        if currentPatch == null {
          return false, before, patch0, chunk0;
        }
        currentChunk := StartChunk(before, currentPatch, chunk0, srcPos, dstPos, c);
      case Body(l) =>
        if currentChunk == null {
          return false, before, patch0, chunk0;
        }
        assert currentChunk in AllChunks(before);
        ExtendChunk(before, patch0, currentChunk, l, c);
      case Junk =>
        ok := false;
    }
  }

  method StartPatch(before: seq<Patch>, patch0: Patch?, chunk0: PatchChunk?, name: string, ghost c: T.Cursor)
    returns (patchset: seq<Patch>, patch: Patch)
    requires Matches(before, patch0, chunk0, c)
    ensures Matches(patchset, patch, chunk0, c.(patches := c.patches + [T.Patch(name, "", [])]))
    ensures fresh(Elems(patchset) - Elems(before)) && AllChunks(patchset) == AllChunks(before)
  {
    patch := new Patch(|before|);
    patch.SetSrc(name);
    patchset := before + [patch];
    hide Separate, AllHold, AllChunks;
    PatchAdded(before, patch, patch0, chunk0, name, c);
    SameChunks(before, patchset);
  }

  lemma PatchAdded(
      before: seq<Patch>, patch: Patch, patch0: Patch?, chunk0: PatchChunk?, name: string, c: T.Cursor)
    requires Matches(before, patch0, chunk0, c)
    requires patch.number == |before| && patch.src == name && patch.dst == "" && patch.chunks == []
    ensures Matches(before + [patch], patch, chunk0, c.(patches := c.patches + [T.Patch(name, "", [])]))
  {
  }

  lemma SameChunks(before: seq<Patch>, after: seq<Patch>)
    requires |after| == |before| + 1 && before == after[..|before|] && after[|before|].chunks == []
    ensures AllChunks(after) == AllChunks(before)
  {
  }

  method Rename(patchset: seq<Patch>, patch: Patch, chunk0: PatchChunk?, name: string, ghost c: T.Cursor)
    requires Matches(patchset, patch, chunk0, c) && patchset != []
    modifies patch`dst
    ensures Matches(patchset, patch, chunk0,
                    c.(patches := c.patches[|c.patches| - 1 := c.patches[|c.patches| - 1].(dst := name)]))
    ensures AllChunks(patchset) == old(AllChunks(patchset))
  {
    patch.SetDst(name);
  }

  method StartChunk(
      patchset: seq<Patch>, patch: Patch, chunk0: PatchChunk?, srcPos: nat, dstPos: nat, ghost c: T.Cursor)
    returns (chunk: PatchChunk)
    requires Matches(patchset, patch, chunk0, c) && patchset != []
    modifies patch
    ensures var last := |c.patches| - 1;
            var value := c.patches[last];
            Matches(patchset, patch, chunk,
                    T.Cursor(c.patches[last := value.(chunks := value.chunks + [T.Chunk(srcPos, dstPos, [])])],
                             Some((last, |value.chunks|))))
    ensures fresh(chunk) && AllChunks(patchset) == old(AllChunks(patchset)) + {chunk}
  {
    hide Holds, AllHold, Separate, AllChunks;
    chunk := GrowPatch(patchset, patch, srcPos, dstPos, c.patches);
  }

  /** The last patch gets one chunk more, and no other changes. */
  method GrowPatch(patchset: seq<Patch>, patch: Patch, srcPos: nat, dstPos: nat, ghost values: seq<T.Patch>)
    returns (chunk: PatchChunk)
    requires patchset != [] && patch == patchset[|patchset| - 1]
    requires Separate(patchset) && AllHold(patchset, values)
    modifies patch
    ensures |values| == |patchset| && |old(patch.chunks)| == |values[|values| - 1].chunks|
    ensures var value := values[|values| - 1];
            AllHold(patchset, values[|values| - 1 := value.(chunks := value.chunks + [T.Chunk(srcPos, dstPos, [])])])
    ensures Separate(patchset) && patch.chunks == old(patch.chunks) + [chunk]
    ensures fresh(chunk) && AllChunks(patchset) == old(AllChunks(patchset)) + {chunk}
  {
    hide Holds;
    OthersAreOther(patchset);
    chunk := new PatchChunk(srcPos, dstPos, (|patchset| - 1, |patch.chunks|));
    AppendChunk(patch, chunk, values[|patchset| - 1]);
    assert AllChunks(patchset) == old(AllChunks(patchset)) + {chunk} by {
      hide AllHold, Separate;
      assert patchset[|patchset| - 1].chunks[|patch.chunks| - 1] == chunk;
      forall other | other in old(AllChunks(patchset)) ensures other in AllChunks(patchset) {
        var i, j :| 0 <= i < |patchset| && 0 <= j < |old(patchset[i].chunks)| && old(patchset[i].chunks[j]) == other;
        assert patchset[i].chunks[j] == other;
      }
    }
    assert Separate(patchset) by {
      hide AllHold, AllChunks;
    }
    hide Separate, AllChunks;
  }

  lemma OthersAreOther(patchset: seq<Patch>)
    requires Separate(patchset)
    ensures forall i :: 0 <= i < |patchset| - 1 ==> patchset[i] != patchset[|patchset| - 1]
  {
  }

  method AppendChunk(patch: Patch, chunk: PatchChunk, ghost value: T.Patch)
    requires Holds(patch, value)
    modifies patch
    ensures Holds(patch, value.(chunks := value.chunks + [chunk.Value()]))
    ensures patch.chunks == old(patch.chunks) + [chunk] && |old(patch.chunks)| == |value.chunks|
  {
    patch.AddChunk(chunk);
  }

  method ExtendChunk(patchset: seq<Patch>, patch: Patch?, chunk: PatchChunk, line: T.ChunkLine, ghost c: T.Cursor)
    requires Matches(patchset, patch, chunk, c)
    modifies chunk
    ensures c.at.Some?
    ensures Matches(patchset, patch, chunk, c.(patches := T.AddLine(c.patches, c.at.value.0, c.at.value.1, line)))
    ensures AllChunks(patchset) == old(AllChunks(patchset))
  {
    chunk.AddLine(line);
  }
}
