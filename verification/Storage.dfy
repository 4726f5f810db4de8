/** The storage below the file writer: a disk of named files, an open file, and the double-mapped ring. */
module Storage {
  import opened Bytes

  type Path = string

  /** Cell i of the ring seen through its two adjacent mappings: i and i + |mem| are one cell. */
  function At(mem: bytes, i: nat): byte
    requires i < 2 * |mem|
  {
    if i < |mem| then mem[i] else mem[i - |mem|]
  }

  /** The bytes from lo up to hi as the two mappings show them. */
  function Segment(mem: bytes, lo: nat, hi: nat): bytes
    requires lo <= hi <= 2 * |mem|
  {
    seq<byte>(hi - lo, i requires 0 <= i < hi - lo => At(mem, lo + i))
  }

  /** The ring after src is copied to offset at; what does not fit before the end lands at the front. */
  function Stored(mem: bytes, at: nat, src: bytes): (r: bytes)
    requires at < |mem| && |src| <= |mem|
    ensures |r| == |mem|
    ensures forall d :: 0 <= d < |src| ==> r[if at + d < |mem| then at + d else at + d - |mem|] == src[d]
  {
    seq<byte>(|mem|, i requires 0 <= i < |mem| =>
      var d := if i >= at then i - at else i + |mem| - at;
      if d < |src| then src[d] else mem[i])
  }

  class HaloBuffer {
    const mem: array<byte>

    constructor (size: nat)
      requires size > 0
      ensures fresh(mem) && mem.Length == size
    {
      mem := new byte[size];
    }

    /** Copies src to the mapped address at; the caller stays inside the two mappings. */
    method Copy(at: nat, src: bytes)
      requires at < mem.Length && |src| <= mem.Length
      modifies mem
      ensures mem[..] == Stored(old(mem[..]), at, src)
    {
      ghost var was := mem[..];
      var d := 0;
      while d < |src|
        invariant 0 <= d <= |src|
        invariant mem[..] == Stored(was, at, src[..d])
      {
        var i := if at + d < mem.Length then at + d else at + d - mem.Length;
        mem[i] := src[d];
        d := d + 1;
      }
      assert src[..d] == src;
    }

    /** The byte at a mapped address. */
    function Get(i: nat): byte
      reads mem
      requires i < 2 * mem.Length
    {
      if i < mem.Length then mem[i] else mem[i - mem.Length]
    }

    /** The bytes between two mapped addresses. */
    function GetRange(lo: nat, hi: nat): bytes
      reads mem
      requires lo <= hi <= 2 * mem.Length
    {
      Segment(mem[..], lo, hi)
    }
  }

  /** The served files. Temporary files live in a directory of their own, outside this tree. */
  class Disk {
    var files: map<Path, bytes>

    constructor (initial: map<Path, bytes>)
      ensures files == initial
    {
      files := initial;
    }
  }

  /** An open temporary file: writes append; closing it removes it while deletion is pending. */
  class File {
    var contents: bytes
    var present: bool
    var isOpen: bool
    var deletePending: bool

    constructor ()
      ensures present && isOpen && !deletePending && contents == []
    {
      contents, present, isOpen, deletePending := [], true, true, false;
    }

    method DeleteOnClose()
      modifies this`deletePending
      ensures deletePending
    {
      deletePending := true;
    }

    method Write(data: bytes)
      requires isOpen
      modifies this`contents
      ensures contents == old(contents) + data
    {
      contents := contents + data;
    }

    /** Keeps the file and closes it. */
    method Commit()
      requires isOpen
      modifies this`isOpen, this`deletePending
      ensures !isOpen && !deletePending
    {
      deletePending := false;
      isOpen := false;
    }

    /** Destruction: closes the file if it is still open, which carries out a pending deletion. */
    method Close()
      modifies this`isOpen, this`present
      ensures !isOpen && present == (old(present) && !(old(isOpen) && deletePending))
    {
      if isOpen && deletePending {
        present := false;
      }
      isOpen := false;
    }
  }
}
