/** What the file writer computes, as functions on its ring, its two counters and its output. */
module WriterSpec {
  import opened Bytes
  import opened Storage

  /** mem is the ring; buffered and written count input bytes; out is the temporary file. */
  datatype View = View(mem: bytes, buffered: nat, written: nat, out: bytes)

  /** One pass of the conversion loop over the ring: the bytes it emits and the address where it stops. */
  function Scan(mem: bytes, buffered: nat, cursor: nat, processed: nat, limit: nat): (r: (bytes, nat))
    requires processed < limit ==> cursor + (limit - processed) < 2 * |mem|
    ensures cursor <= r.1 && (processed <= limit ==> cursor + (limit - processed) <= r.1)
    ensures r.1 <= cursor + (if processed < limit then limit - processed + 1 else 0)
    decreases limit - processed
  {
    if processed >= limit then ([], cursor)
    else if At(mem, cursor) == CR && processed + 1 < buffered && At(mem, cursor + 1) == LF then
      var rest := Scan(mem, buffered, cursor + 2, processed + 2, limit);
      (CRLF + rest.0, rest.1)
    else
      var rest := Scan(mem, buffered, cursor + 1, processed + 1, limit);
      ((if At(mem, cursor) == LF then CRLF else [At(mem, cursor)]) + rest.0, rest.1)
  }

  /** The same pass as the loop runs it: a segment still to be written trails the cursor. */
  function Loop(mem: bytes, buffered: nat, beginning: nat, cursor: nat,
                processed: nat, limit: nat, out: bytes): (bytes, nat)
    requires beginning <= cursor <= 2 * |mem|
    requires processed < limit ==> cursor + (limit - processed) < 2 * |mem|
    decreases limit - processed
  {
    if processed >= limit then (out + Segment(mem, beginning, cursor), cursor)
    else if At(mem, cursor) == CR && processed + 1 < buffered && At(mem, cursor + 1) == LF then
      Loop(mem, buffered, cursor + 2, cursor + 2, processed + 2, limit, out + Segment(mem, beginning, cursor) + CRLF)
    else if At(mem, cursor) == LF then
      Loop(mem, buffered, cursor + 1, cursor + 1, processed + 1, limit, out + Segment(mem, beginning, cursor) + CRLF)
    else
      Loop(mem, buffered, beginning, cursor + 1, processed + 1, limit, out)
  }

  lemma SegmentGrows(mem: bytes, beginning: nat, cursor: nat)
    requires beginning <= cursor < 2 * |mem|
    ensures Segment(mem, beginning, cursor + 1) == Segment(mem, beginning, cursor) + [At(mem, cursor)]
  {
  }

  lemma Regroup(a: bytes, b: bytes, c: bytes, d: bytes)
    ensures a + b + c + d == a + b + (c + d) == a + (b + c) + d == a + (b + c + d)
    ensures a + b + [] + d == a + (b + d)
  {
  }

  lemma {:induction false} LoopIsScan(mem: bytes, buffered: nat, beginning: nat, cursor: nat,
                                      processed: nat, limit: nat, out: bytes)
    requires beginning <= cursor <= 2 * |mem|
    requires processed < limit ==> cursor + (limit - processed) < 2 * |mem|
    ensures var r := Scan(mem, buffered, cursor, processed, limit);
      Loop(mem, buffered, beginning, cursor, processed, limit, out)
      == (out + Segment(mem, beginning, cursor) + r.0, r.1)
    decreases limit - processed
  {
    var s := Segment(mem, beginning, cursor);
    if processed >= limit {
      assert out + s + [] == out + s;
    } else {
      var pair := At(mem, cursor) == CR && processed + 1 < buffered && At(mem, cursor + 1) == LF;
      var u := if pair then 2 else 1;
      var rest := Scan(mem, buffered, cursor + u, processed + u, limit);
      if pair || At(mem, cursor) == LF {
        LoopIsScan(mem, buffered, cursor + u, cursor + u, processed + u, limit, out + s + CRLF);
        assert Segment(mem, cursor + u, cursor + u) == [];
        Regroup(out + s, CRLF, [], rest.0);
      } else {
        LoopIsScan(mem, buffered, beginning, cursor + u, processed + u, limit, out);
        SegmentGrows(mem, beginning, cursor);
        Regroup(out, s, [At(mem, cursor)], rest.0);
      }
    }
  }

  function BufferBlock(v: View, block: bytes): View
    requires |block| <= |v.mem| && v.mem != []
  {
    v.(mem := Stored(v.mem, v.buffered % |v.mem|, block), buffered := v.buffered + |block|)
  }

  function BufferOut(v: View, limit: nat): (r: View)
    requires limit <= |v.mem| && v.mem != []
    ensures r.mem == v.mem && r.buffered == v.buffered
  {
    var cursor := v.written % |v.mem|;
    var scanned := Scan(v.mem, v.buffered, cursor, 0, limit);
    v.(out := v.out + scanned.0, written := v.written + (scanned.1 - cursor))
  }

  function WriteBlock(v: View, convert: bool, block: bytes): (r: View)
    requires |block| <= |v.mem| && v.mem != []
    ensures |r.mem| == |v.mem|
  {
    if convert then
      BufferOut(BufferBlock(v, block), if v.written == 0 then |block| / 2 else |block|)
    else
      v.(out := v.out + block, written := v.written + |block|)
  }

  function Flush(v: View): View
    requires v.buffered <= v.written + |v.mem| && v.mem != []
  {
    if v.buffered > v.written then BufferOut(v, v.buffered - v.written) else v
  }
}

/** The file writer itself. */
module FileWriting {
  import opened Bytes
  import opened Storage
  import Spec = WriterSpec

  class FileWriter {
    const disk: Disk
    const endPath: Path
    const forceNativeEol: bool
    const buffer: HaloBuffer
    const file: File
    var bytesBuffered: nat
    var bytesWritten: nat

    ghost predicate Valid()
      reads file
    {
      file.isOpen && file.present && file.deletePending && buffer.mem.Length > 0
    }

    ghost function View(): Spec.View
      reads this, file, buffer.mem
    {
      Spec.View(buffer.mem[..], bytesBuffered, bytesWritten, file.contents)
    }

    constructor (disk: Disk, endPath: Path, buffer: HaloBuffer, forceNativeEol: bool)
      requires buffer.mem.Length > 0
      ensures Valid() && fresh(file) && this.disk == disk && this.buffer == buffer
      ensures this.endPath == endPath && this.forceNativeEol == forceNativeEol
      ensures View() == Spec.View(buffer.mem[..], 0, 0, [])
    {
      this.disk, this.endPath, this.forceNativeEol, this.buffer := disk, endPath, forceNativeEol, buffer;
      bytesBuffered, bytesWritten := 0, 0;
      file := new File();
      new;
      file.DeleteOnClose();
    }

    /** Takes one block of the upload. */
    method WriteBlock(block: bytes)
      requires Valid() && |block| <= buffer.mem.Length
      modifies this, file`contents, buffer.mem
      ensures Valid() && View() == Spec.WriteBlock(old(View()), forceNativeEol, block)
    {
      if forceNativeEol {
        BufferBlock(block);
        BufferOut(if bytesWritten == 0 then |block| / 2 else |block|);
      } else {
        Write(block);
      }
    }

    /** Converts what is still buffered, keeps the temporary file and moves it over the target. */
    method Finalize()
      requires Valid() && bytesBuffered <= bytesWritten + buffer.mem.Length
      modifies this, file, disk
      ensures !file.isOpen && !file.present
      ensures disk.files == old(disk.files)[endPath := Spec.Flush(old(View())).out]
    {
      if bytesBuffered > bytesWritten {
        BufferOut(bytesBuffered - bytesWritten);
      }
      file.Commit();
      OverwriteFile();
    }

    /** Destruction without Finalize: the temporary file goes, the target stays as it is. */
    method Discard()
      requires Valid()
      modifies file
      ensures !file.isOpen && !file.present
    {
      file.Close();
    }

    /** Creates the target if it is missing, then replaces it by the temporary file. */
    method OverwriteFile()
      requires file.present && !file.isOpen
      modifies disk, file`present
      ensures !file.present && disk.files == old(disk.files)[endPath := file.contents]
    {
      if endPath !in disk.files {
        disk.files := disk.files[endPath := []];
      }
      disk.files := disk.files[endPath := file.contents];
      file.present := false;
    }

    method BufferBlock(block: bytes)
      requires Valid() && |block| <= buffer.mem.Length
      modifies this`bytesBuffered, buffer.mem
      ensures View() == Spec.BufferBlock(old(View()), block)
    {
      buffer.Copy(bytesBuffered % buffer.mem.Length, block);
      bytesBuffered := bytesBuffered + |block|;
    }

    method BufferOut(limit: nat)
      requires Valid() && limit <= buffer.mem.Length
      modifies this`bytesWritten, file`contents
      ensures View() == Spec.BufferOut(old(View()), limit)
    {
      ghost var mem, out := buffer.mem[..], file.contents;
      var cursor := bytesWritten % buffer.mem.Length;
      var beginning := cursor;
      var processed := 0;
      ghost var start := cursor;
      ghost var whole := Spec.Loop(mem, bytesBuffered, start, start, 0, limit, out);
      while processed < limit
        invariant start <= beginning <= cursor <= 2 * |mem|
        invariant processed < limit ==> cursor + (limit - processed) < 2 * |mem|
        invariant bytesWritten == old(bytesWritten) + (beginning - start)
        invariant Spec.Loop(mem, bytesBuffered, beginning, cursor, processed, limit, file.contents) == whole
        decreases limit - processed
      {
        processed := processed + 1;
        if buffer.Get(cursor) == CR && processed < bytesBuffered && buffer.Get(cursor + 1) == LF {
          WriteBufferedSegment(beginning, cursor);
          Write(CRLF);
          processed, cursor := processed + 1, cursor + 2;
          beginning := cursor;
        } else if buffer.Get(cursor) == LF {
          WriteBufferedSegment(beginning, cursor);
          Write(CRLF);
          bytesWritten, cursor := bytesWritten - 1, cursor + 1;
          beginning := cursor;
        } else {
          cursor := cursor + 1;
        }
      }
      WriteBufferedSegment(beginning, cursor);
      Spec.LoopIsScan(mem, bytesBuffered, start, start, 0, limit, out);
      assert out + Segment(mem, start, start) == out;
    }

    method Write(data: bytes)
      requires Valid()
      modifies this`bytesWritten, file`contents
      ensures bytesWritten == old(bytesWritten) + |data| && file.contents == old(file.contents) + data
    {
      file.Write(data);
      bytesWritten := bytesWritten + |data|;
    }

    method WriteBufferedSegment(beginning: nat, end: nat)
      requires Valid() && beginning <= end <= 2 * buffer.mem.Length
      modifies this`bytesWritten, file`contents
      ensures bytesWritten == old(bytesWritten) + (end - beginning)
      ensures file.contents == old(file.contents) + Segment(buffer.mem[..], beginning, end)
    {
      var segmentSize := end - beginning;
      if segmentSize != 0 {
        Write(buffer.GetRange(beginning, end));
      }
    }
  }
}
