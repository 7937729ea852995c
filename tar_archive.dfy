/**
 * The reader of Oxygen_Archive_Tar: the object that walks the decompressed
 * archive block by block and writes its entries, proved against the
 * specification of the walk in module Tar.
 */
module TarArchive {

  import opened Wrappers
  import opened OxygenException
  import opened Tar
  import Util

  /** `LongHeader` from the long name's blocks and the block after them, as `readLongHeader` reads them. */
  lemma {:induction false} LongHeaderPieces(data: string, offset: nat, h: Header, namesEnd: nat, next: nat)
    requires offset <= |data|
    requires namesEnd == Min(offset + BlockSize * BlockCount(h.size), |data|)
    requires next == Min(namesEnd + BlockSize, |data|)
    ensures LongHeader(data, offset, h)
            == LongOf(h, Trim(data[offset..namesEnd]), ReadHeader(data[namesEnd..next]), next == namesEnd, next)
  {
  }

  /**
   * An archive being extracted: its decompressed content, how far
   * `readBlock` has read it, and the entries written so far.
   */
  class Archive {
    const data: string
    var offset: nat
    var written: seq<Entry>

    predicate Valid()
      reads this
    {
      offset <= |data|
    }

    constructor (data: string)
      ensures this.data == data && offset == 0 && written == [] && Valid()
    {
      this.data := data;
      offset := 0;
      written := [];
    }

    /** `readBlock`: the next 512 bytes, fewer at the end of the stream, none after it. */
    method ReadBlock() returns (block: string)
      requires Valid()
      modifies this
      ensures Valid() && written == old(written)
      ensures offset == Min(old(offset) + BlockSize, |data|)
      ensures block == data[old(offset)..offset]
    {
      block := data[offset..Min(offset + BlockSize, |data|)];
      offset := Min(offset + BlockSize, |data|);
    }

    /** `count` calls of `readBlock`, concatenated. */
    method ReadBlocks(count: nat) returns (blocks: string)
      requires Valid()
      modifies this
      ensures Valid() && written == old(written)
      ensures offset == Min(old(offset) + BlockSize * count, |data|)
      ensures blocks == data[old(offset)..offset]
    {
      blocks := "";
      var i := 0;
      while i < count
        invariant 0 <= i <= count && Valid() && written == old(written)
        invariant old(offset) <= offset == Min(old(offset) + BlockSize * i, |data|)
        invariant blocks == data[old(offset)..offset]
      {
        var block := ReadBlock();
        blocks := blocks + block;
        i := i + 1;
      }
    }

    /**
     * Lines 148-156 of `doExtract`: `floor(size / 512)` whole blocks, then
     * the first `size % 512` bytes of one more block. The content is the
     * `size` bytes that follow, or as many as the stream still holds.
     */
    method ReadContent(size: nat) returns (content: string)
      requires Valid()
      modifies this
      ensures Valid() && written == old(written)
      ensures content == data[old(offset)..Min(old(offset) + size, |data|)]
      ensures offset == Min(old(offset) + BlockSize * BlockCount(size), |data|)
    {
      content := ReadBlocks(size / BlockSize);
      if size % BlockSize != 0 {
        var block := ReadBlock();
        content := content + Prefix(block, size % BlockSize);
      }
    }

    /**
     * `readLongHeader`: the blocks of the long name (whole blocks, the last
     * one padded), the header after them, and the long name, trimmed and
     * checked, in place of that header's name.
     */
    method ReadLongHeader(h: Header) returns (r: Result<LongEntry, Fault>)
      requires Valid()
      modifies this
      ensures Valid() && written == old(written)
      ensures r == LongHeader(data, old(offset), h)
      ensures r.Success? ==> offset == r.value.next
    {
      ghost var start := old(offset);
      var fileName := ReadNameBlocks(h.size);
      ghost var namesEnd := offset;
      var binaryData := ReadBlock();
      var header := ReadHeader(binaryData);
      LongHeaderPieces(data, start, h, namesEnd, offset);
      if header.Failure? {
        return Failure(header.error);
      }
      fileName := Trim(fileName);
      if Traverses(fileName) {
        return Failure(DirectoryTraversal);
      }
      if header.value.Some? {
        r := Success(Next(header.value.value.(filename := fileName), offset));
      } else if |binaryData| == 0 {
        r := Success(Next(h.(filename := fileName), offset));
      } else {
        r := Success(EndMarker(fileName, offset));
      }
    }

    /** Lines 261-267 of `readLongHeader`: the blocks that hold a long name of `size` bytes, padding included. */
    method ReadNameBlocks(size: nat) returns (blocks: string)
      requires Valid()
      modifies this
      ensures Valid() && written == old(written)
      ensures offset == Min(old(offset) + BlockSize * BlockCount(size), |data|)
      ensures blocks == data[old(offset)..offset]
    {
      blocks := ReadBlocks(size / BlockSize);
      if size % BlockSize != 0 {
        var block := ReadBlock();
        blocks := blocks + block;
      }
    }

    /** Lines 100-177 of `doExtract`: the entry for a decoded header is written under `root`. */
    method StoreEntry(root: string, h: Header) returns (step: Step)
      requires Valid() && !Traverses(h.filename)
      modifies this
      ensures Valid()
      ensures step == Store(data, old(offset), root, h)
      ensures written == old(written) + Written(step)
      ensures step.Continue? ==> offset == step.next
    {
      var fileName := root + "/" + StripDotSlash(h.filename);
      if h.typeflag == TypeDir {
        written := written + [Directory(fileName)];
        return Continue(Some(Directory(fileName)), offset);
      }
      if h.typeflag == TypeSymlink {
        return Continue(None, offset);
      }
      var content := ReadContent(h.size);
      written := written + [File(fileName, content)];
      if |content| != h.size {
        return Stopped(Some(File(fileName, content)), FileSizeMismatch);
      }
      step := Continue(Some(File(fileName, content)), offset);
    }

    /** One pass of the loop in `doExtract`. */
    method ExtractNext(root: string) returns (step: Step)
      requires Valid()
      modifies this
      ensures Valid()
      ensures step == NextEntry(data, old(offset), root)
      ensures written == old(written) + Written(step)
      ensures step.Continue? ==> offset == step.next
    {
      var binaryData := ReadBlock();
      if |binaryData| == 0 {
        return Finished;
      }
      step := HandleHeader(root, ReadHeader(binaryData));
    }

    /** Lines 89-98 of `doExtract`, for the header just read. */
    method HandleHeader(root: string, header: Result<Option<Header>, Fault>) returns (step: Step)
      requires Valid()
      requires header.Success? && header.value.Some? ==> !Traverses(header.value.value.filename)
      modifies this
      ensures Valid()
      ensures step == HeaderStep(data, old(offset), root, header)
      ensures written == old(written) + Written(step)
      ensures step.Continue? ==> offset == step.next
    {
      if header.Failure? {
        return Stopped(None, header.error);
      }
      if header.value.None? || header.value.value.filename == "" {
        return Continue(None, offset);
      }
      var h := header.value.value;
      if h.typeflag != TypeLongFileName {
        step := StoreEntry(root, h);
      } else {
        step := LongEntry(root, h);
      }
    }

    /** An 'L' header: `readLongHeader`, then the entry is stored. */
    method LongEntry(root: string, h: Header) returns (step: Step)
      requires Valid()
      modifies this
      ensures Valid()
      ensures step == LongStep(data, old(offset), root, h)
      ensures written == old(written) + Written(step)
      ensures step.Continue? ==> offset == step.next
    {
      var long := ReadLongHeader(h);
      match long {
        case Failure(error) =>
          step := Stopped(None, error);
        case Success(Next(next, _)) =>
          step := StoreEntry(root, next);
        case Success(EndMarker(name, _)) =>
          var fileName := root + "/" + StripDotSlash(name);
          written := written + [File(fileName, "")];
          step := Stopped(Some(File(fileName, "")), FileSizeMismatch);
      }
    }

    /**
     * `extract($path)`: the stream is read from its start until a read
     * comes back empty, every entry going under `$path` without its
     * trailing slashes; what is written and the error that stops the walk
     * are those of `ExtractFrom`, so every written entry is the
     * destination joined with a name the traversal test let through.
     */
    method Extract(path: string) returns (error: Option<Fault>)
      modifies this
      ensures Valid()
      ensures var o := ExtractFrom(data, 0, Util.TrimTrailingSlashes(path));
                written == old(written) + o.entries && error == o.error
    {
      offset := 0;
      var root := Util.TrimTrailingSlashes(path);
      ghost var done: seq<Entry> := [];
      assert [] + ExtractFrom(data, 0, root).entries == ExtractFrom(data, 0, root).entries;
      while true
        invariant Valid() && written == old(written) + done
        invariant ExtractFrom(data, 0, root) == Prepend(done, ExtractFrom(data, offset, root))
        decreases |data| - offset
      {
        ghost var start := offset;
        var step := ExtractNext(root);
        if !step.Continue? {
          ExtractEnds(data, start, root, done);
          Associative(old(written), done, Written(step));
          return if step.Stopped? then Some(step.error) else None;
        }
        ExtractContinues(data, start, root, done);
        Associative(old(written), done, Written(step));
        done := done + Written(step);
      }
    }
  }
}
