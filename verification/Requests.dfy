/** Read and write requests: how they are printed, and what is accepted off the wire. */
module Requests {
  import opened Bytes

  datatype Mode = UNDEFINED | NETASCII | OCTET | MAIL

  const NETASCII_NAME: bytes := [110, 101, 116, 97, 115, 99, 105, 105]
  const OCTET_NAME: bytes := [111, 99, 116, 101, 116]
  const MAIL_NAME: bytes := [109, 97, 105, 108]

  /** The name a mode is printed with; an undefined mode has none. */
  function ModeString(mode: Mode): bytes
  {
    match mode
    case UNDEFINED => []
    case NETASCII => NETASCII_NAME
    case OCTET => OCTET_NAME
    case MAIL => MAIL_NAME
  }

  function StrToEnum(str: Option<bytes>): Mode
  {
    match str
    case None => UNDEFINED
    case Some(name) =>
      if name == NETASCII_NAME then NETASCII
      else if name == OCTET_NAME then OCTET
      else if name == MAIL_NAME then MAIL
      else UNDEFINED
  }

  /** Names are told apart, and only a mode's own name reads as that mode. */
  lemma StrToEnumIff(name: bytes, mode: Mode)
    requires !mode.UNDEFINED?
    ensures StrToEnum(Some(name)) == mode <==> name == ModeString(mode)
  {
    assert |NETASCII_NAME| == 8 && |OCTET_NAME| == 5 && |MAIL_NAME| == 4;
  }

  function Ascii(s: string): bytes
    requires forall i :: 0 <= i < |s| ==> s[i] < 128 as char
  {
    seq<byte>(|s|, i requires 0 <= i < |s| => s[i] as int)
  }

  /** The names are those of RFC 1350, section 5. */
  lemma NamesSpelled()
    ensures NETASCII_NAME == Ascii("netascii") && OCTET_NAME == Ascii("octet") && MAIL_NAME == Ascii("mail")
  {
  }

  predicate NulFree(s: bytes)
  {
    forall i :: 0 <= i < |s| ==> s[i] != 0
  }

  // ---- Reading strings out of memory ----

  /** The offset of the first NUL from an offset on; the end of memory if there is none. */
  function Nul(mem: bytes, from: nat): (k: nat)
    requires from <= |mem|
    ensures from <= k <= |mem| && (k < |mem| ==> mem[k] == 0)
    ensures forall i :: from <= i < k ==> mem[i] != 0
    decreases |mem| - from
  {
    if from == |mem| || mem[from] == 0 then from else Nul(mem, from + 1)
  }

  lemma NulUnique(mem: bytes, from: nat, k: nat)
    requires from <= k < |mem| && mem[k] == 0 && forall i :: from <= i < k ==> mem[i] != 0
    ensures Nul(mem, from) == k
  {
  }

  /** The length of a string of at most maxSz characters, or -1. */
  function BoundedLength(mem: bytes, from: nat, maxSz: nat): (sz: int)
    requires from + maxSz < |mem|
    ensures sz != -1 ==> 0 <= sz <= maxSz && mem[from + sz] == 0
  {
    if Nul(mem, from) <= from + maxSz then Nul(mem, from) - from else -1
  }

  /** The loop looks at maxSz + 1 bytes at most: the last one only to see whether it ends the string. */
  method StrLenS(mem: bytes, from: nat, maxSz: nat) returns (sz: int)
    requires from + maxSz < |mem|
    ensures sz == BoundedLength(mem, from, maxSz)
  {
    sz := 0;
    var left := maxSz;
    while mem[from + sz] != 0 && left != 0
      invariant 0 <= sz && sz + left == maxSz && forall i :: from <= i < from + sz ==> mem[i] != 0
      decreases left
    {
      sz := sz + 1;
      left := left - 1;
    }
    if mem[from + sz] != 0 {
      return -1;
    }
    NulUnique(mem, from, from + sz);
  }

  function CString(mem: bytes, from: nat): bytes
    requires from <= |mem|
  {
    mem[from..Nul(mem, from)]
  }

  // ---- The accessors; a pointer into the message is its offset ----

  const OPCODE_SIZE: nat := 2

  /** The 16-bit size left after the opcode; it wraps around for messages shorter than that. */
  function DataSize(messageSz: u16): nat
  {
    (messageSz + WRAP - OPCODE_SIZE) % WRAP
  }

  /** The last offset the bounded accessors may look at. */
  function Reach(messageSz: u16): nat
  {
    OPCODE_SIZE + DataSize(messageSz)
  }

  function GetMessageCode(mem: bytes): nat
    requires |mem| >= OPCODE_SIZE
  {
    var high: int := mem[0];
    256 * high + mem[1]
  }

  const FILENAME: nat := OPCODE_SIZE

  function GetFilenameS(mem: bytes, messageSz: u16): Option<nat>
    requires Reach(messageSz) < |mem|
  {
    if BoundedLength(mem, FILENAME, DataSize(messageSz)) == -1 then None else Some(FILENAME)
  }

  function GetModeStrS(mem: bytes, messageSz: u16): (r: Option<nat>)
    requires Reach(messageSz) < |mem|
    ensures r.Some? ==> Nul(mem, FILENAME) < |mem| && r.value == GetModeStr(mem)
    ensures r.Some? ==> Nul(mem, r.value) <= Reach(messageSz)
  {
    var dataSize := DataSize(messageSz);
    var filenameLen := BoundedLength(mem, FILENAME, dataSize);
    if filenameLen == -1 || filenameLen + 2 > dataSize then None
    else
      var modeStr := FILENAME + (filenameLen + 1);
      if BoundedLength(mem, modeStr, dataSize - (filenameLen + 1)) == -1 then None else Some(modeStr)
  }

  /** The unbounded accessor behind the first terminator. */
  function GetModeStr(mem: bytes): nat
    requires |mem| >= FILENAME && Nul(mem, FILENAME) < |mem|
  {
    Nul(mem, FILENAME) + 1
  }

  function GetMode(mem: bytes): Mode
    requires |mem| >= FILENAME && Nul(mem, FILENAME) < |mem|
  {
    StrToEnum(Some(CString(mem, GetModeStr(mem))))
  }

  function Size(mem: bytes): nat
    requires |mem| >= FILENAME && Nul(mem, FILENAME) < |mem|
  {
    4 + |CString(mem, FILENAME)| + |CString(mem, GetModeStr(mem))|
  }

  predicate Validate(mem: bytes, messageSz: u16)
    requires Reach(messageSz) < |mem|
  {
    && GetFilenameS(mem, messageSz).Some? && GetModeStrS(mem, messageSz).Some?
    && GetMode(mem) != MAIL && GetMode(mem) != UNDEFINED
  }

  // ---- What a request is (RFC 1350, section 5) ----

  function Encoded(opcode: bytes, filename: bytes, mode: Mode): bytes
  {
    opcode + filename + [0] + ModeString(mode) + [0]
  }

  /** The message begins with a file name and a supported mode, each with its terminator. */
  ghost predicate IsRequest(message: bytes)
  {
    && |message| >= OPCODE_SIZE
    && exists filename, mode :: Begins(message, filename, mode) && (mode == NETASCII || mode == OCTET)
  }

  ghost predicate Begins(message: bytes, filename: bytes, mode: Mode)
    requires |message| >= OPCODE_SIZE
  {
    NulFree(filename) && Encoded(message[..OPCODE_SIZE], filename, mode) <= message
  }

  lemma ReadString(before: bytes, s: bytes, after: bytes)
    requires NulFree(s)
    ensures var mem := before + s + [0] + after;
      Nul(mem, |before|) == |before| + |s| < |mem| && CString(mem, |before|) == s
  {
    var mem := before + s + [0] + after;
    assert forall i :: |before| <= i < |before| + |s| ==> mem[i] == s[i - |before|];
    NulUnique(mem, |before|, |before| + |s|);
    assert mem[|before|..|before| + |s|] == s;
  }

  lemma NamesAreStrings(mode: Mode)
    ensures NulFree(ModeString(mode)) && |ModeString(mode)| <= 8
  {
  }

  lemma Regroup(opcode: bytes, filename: bytes, name: bytes, tail: bytes)
    ensures opcode + filename + [0] + name + [0] + tail == opcode + filename + [0] + (name + [0] + tail)
  {
  }

  lemma ReadTwoStrings(mem: bytes, opcode: bytes, filename: bytes, name: bytes, tail: bytes)
    requires NulFree(filename) && NulFree(name) && |opcode| == OPCODE_SIZE
    requires mem == opcode + filename + [0] + name + [0] + tail
    ensures Nul(mem, FILENAME) == FILENAME + |filename| < |mem| && CString(mem, FILENAME) == filename
    ensures CString(mem, GetModeStr(mem)) == name
    ensures Nul(mem, GetModeStr(mem)) == FILENAME + |filename| + 1 + |name| < |mem|
  {
    hide NulFree, Nul, CString;
    ReadString(opcode + filename + [0], name, tail);
    Regroup(opcode, filename, name, tail);
    ReadString(opcode, filename, name + [0] + tail);
  }

  lemma PrefixAndRest(prefix: bytes, whole: bytes)
    ensures prefix <= whole <==> |prefix| <= |whole| && whole == prefix + whole[|prefix|..]
  {
  }

  /** Reading finds what printing wrote. */
  lemma ReadBack(mem: bytes, filename: bytes, mode: Mode)
    requires |mem| >= OPCODE_SIZE && Begins(mem, filename, mode)
    ensures Nul(mem, FILENAME) == FILENAME + |filename| < |mem| && CString(mem, FILENAME) == filename
    ensures CString(mem, GetModeStr(mem)) == ModeString(mode)
    ensures Nul(mem, GetModeStr(mem)) == FILENAME + |filename| + 1 + |ModeString(mode)| < |mem|
  {
    NamesAreStrings(mode);
    hide ModeString, NulFree, Nul, CString;
    var e := Encoded(mem[..OPCODE_SIZE], filename, mode);
    PrefixAndRest(e, mem);
    ReadTwoStrings(mem, mem[..OPCODE_SIZE], filename, ModeString(mode), mem[|e|..]);
  }

  lemma CutAtTerminators(mem: bytes, i: nat, j: nat)
    requires OPCODE_SIZE <= i < j < |mem| && mem[i] == 0 && mem[j] == 0
    ensures mem[..OPCODE_SIZE] + mem[OPCODE_SIZE..i] + [0] + mem[i + 1..j] + [0] == mem[..j + 1]
  {
  }

  /** Printing reproduces what was read. */
  lemma PrintBack(mem: bytes, mode: Mode)
    requires |mem| >= OPCODE_SIZE && Nul(mem, FILENAME) < |mem| && Nul(mem, GetModeStr(mem)) < |mem|
    requires CString(mem, GetModeStr(mem)) == ModeString(mode)
    ensures NulFree(CString(mem, FILENAME))
    ensures Encoded(mem[..OPCODE_SIZE], CString(mem, FILENAME), mode) == mem[..Nul(mem, GetModeStr(mem)) + 1]
  {
    CutAtTerminators(mem, Nul(mem, FILENAME), Nul(mem, GetModeStr(mem)));
    hide ModeString;
  }

  lemma ShorterPrefix(s: bytes, whole: bytes, n: nat)
    requires n <= |whole|
    ensures s <= whole[..n] <==> s <= whole && |s| <= n
  {
    if s <= whole[..n] {
      assert forall i :: 0 <= i < |s| ==> whole[..n][i] == whole[i];
    }
  }

  /** Cutting memory off behind the last terminator makes no difference, before it does. */
  lemma BeginsInPart(mem: bytes, filename: bytes, mode: Mode, n: nat)
    requires OPCODE_SIZE <= n <= |mem|
    ensures Begins(mem[..n], filename, mode) <==>
      Begins(mem, filename, mode) && OPCODE_SIZE + |filename| + |ModeString(mode)| + 2 <= n
  {
    assert mem[..n][..OPCODE_SIZE] == mem[..OPCODE_SIZE];
    assert |Encoded(mem[..OPCODE_SIZE], filename, mode)| == OPCODE_SIZE + |filename| + |ModeString(mode)| + 2;
    hide Encoded, ModeString, NulFree;
    ShorterPrefix(Encoded(mem[..OPCODE_SIZE], filename, mode), mem, n);
  }

  // ---- Main results ----

  /** What the bounded accessors accept, whatever the bytes: a request that is complete within one byte
      more than the message. */
  lemma AcceptedIff(mem: bytes, messageSz: u16)
    requires Reach(messageSz) < |mem|
    ensures Validate(mem, messageSz) <==> IsRequest(mem[..Reach(messageSz) + 1])
  {
    var n := Reach(messageSz) + 1;
    if Validate(mem, messageSz) {
      AcceptedIsRequest(mem, messageSz);
    }
    if IsRequest(mem[..n]) {
      var filename, mode :| Begins(mem[..n], filename, mode) && (mode == NETASCII || mode == OCTET);
      BeginsInPart(mem, filename, mode, n);
      RequestIsAccepted(mem, messageSz, filename, mode);
    }
  }

  lemma AcceptedIsRequest(mem: bytes, messageSz: u16)
    requires Reach(messageSz) < |mem| && Validate(mem, messageSz)
    ensures IsRequest(mem[..Reach(messageSz) + 1])
  {
    var filename, mode, n := CString(mem, FILENAME), GetMode(mem), Reach(messageSz) + 1;
    StrToEnumIff(CString(mem, GetModeStr(mem)), mode);
    hide StrToEnum, ModeString, BoundedLength;
    PrintBack(mem, mode);
    assert |Encoded(mem[..OPCODE_SIZE], filename, mode)| == OPCODE_SIZE + |filename| + |ModeString(mode)| + 2;
    hide Encoded, NulFree, CString;
    BeginsInPart(mem, filename, mode, n);
    assert Begins(mem[..n], filename, mode);
  }

  lemma RequestIsAccepted(mem: bytes, messageSz: u16, filename: bytes, mode: Mode)
    requires Reach(messageSz) < |mem| && Begins(mem, filename, mode) && (mode == NETASCII || mode == OCTET)
    requires OPCODE_SIZE + |filename| + |ModeString(mode)| + 1 <= Reach(messageSz)
    ensures Validate(mem, messageSz) && GetMode(mem) == mode
  {
    ReadBack(mem, filename, mode);
    StrToEnumIff(ModeString(mode), mode);
    assert |ModeString(mode)| >= 5;
    hide StrToEnum, ModeString, Begins, Nul, CString;
  }

  /** In an accepted request unbounded and bounded accessors agree, and neither string ends past the
      message by more than its terminator. */
  lemma AccessorsAgree(mem: bytes, messageSz: u16)
    requires Reach(messageSz) < |mem| && Validate(mem, messageSz)
    ensures GetFilenameS(mem, messageSz) == Some(FILENAME) && GetModeStrS(mem, messageSz) == Some(GetModeStr(mem))
    ensures Nul(mem, FILENAME) < Nul(mem, GetModeStr(mem)) <= Reach(messageSz)
    ensures GetMode(mem) == NETASCII || GetMode(mem) == OCTET
  {
  }

  /** No decision depends on anything behind that byte. */
  lemma ReadsWithinReach(mem: bytes, other: bytes, messageSz: u16)
    requires Reach(messageSz) < |mem| && Reach(messageSz) < |other|
    requires mem[..Reach(messageSz) + 1] == other[..Reach(messageSz) + 1]
    ensures Validate(mem, messageSz) == Validate(other, messageSz)
  {
    AcceptedIff(mem, messageSz);
    AcceptedIff(other, messageSz);
  }

  /** The reach is the message size itself, unless the message is shorter than its opcode. */
  lemma ReachIff(messageSz: u16)
    ensures Reach(messageSz) == messageSz <==> messageSz >= OPCODE_SIZE
    ensures messageSz < OPCODE_SIZE ==> Reach(messageSz) >= WRAP
  {
  }

  /** An accepted request is complete inside the message exactly when its last terminator is. */
  lemma CompleteIff(mem: bytes, messageSz: u16)
    requires OPCODE_SIZE <= messageSz && Reach(messageSz) < |mem| && Validate(mem, messageSz)
    ensures IsRequest(mem[..messageSz]) <==> Nul(mem, GetModeStr(mem)) < messageSz
  {
    ReachIff(messageSz);
    hide Validate, Nul, CString, Begins, Reach, ModeString;
    AcceptedIff(mem, messageSz);
    var n := messageSz + 1;
    var filename, mode :| Begins(mem[..n], filename, mode) && (mode == NETASCII || mode == OCTET);
    BeginsInPart(mem, filename, mode, n);
    ReadBack(mem, filename, mode);
    if Nul(mem, GetModeStr(mem)) < messageSz {
      BeginsInPart(mem, filename, mode, messageSz);
    }
    if IsRequest(mem[..messageSz]) {
      var filename', mode' :| Begins(mem[..messageSz], filename', mode') && (mode' == NETASCII || mode' == OCTET);
      BeginsInPart(mem, filename', mode', messageSz);
      ReadBack(mem, filename', mode');
    }
  }

  /** A request whose last terminator is the byte behind the message is accepted. */
  lemma UnterminatedAccepted()
    ensures var mem := [0, 1, 97, 0, 111, 99, 116, 101, 116, 0];
      Reach(9) == 9 && Validate(mem, 9) && !IsRequest(mem[..9])
  {
    var mem: bytes := [0, 1, 97, 0, 111, 99, 116, 101, 116, 0];
    assert Reach(9) == 9;
    assert OCTET_NAME == mem[4..9];
    var e := Encoded(mem[..2], [97], OCTET);
    assert e == mem;
    assert Begins(mem, [97], OCTET);
    RequestIsAccepted(mem, 9, [97], OCTET);
    ReadBack(mem, [97], OCTET);
    CompleteIff(mem, 9);
  }

  // ---- Printing ----

  /** Copies a string and its terminator into a buffer. */
  method CopyString(buffer: array<byte>, at: nat, s: bytes)
    requires at + |s| < buffer.Length
    modifies buffer
    ensures buffer[..at] == old(buffer[..at])
    ensures buffer[at..at + |s| + 1] == s + [0]
    ensures buffer[at + |s| + 1..] == old(buffer[at + |s| + 1..])
  {
    var i := 0;
    while i < |s|
      invariant 0 <= i <= |s|
      invariant buffer[..at] == old(buffer[..at])
      invariant forall k :: 0 <= k < i ==> buffer[at + k] == s[k]
      invariant buffer[at + |s| + 1..] == old(buffer[at + |s| + 1..])
    {
      buffer[at + i] := s[i];
      i := i + 1;
    }
    buffer[at + |s|] := 0;
  }

  lemma EncodedInTwoParts(first: bytes, opCode: byte, filename: bytes, mode: Mode)
    requires first == [0, opCode] + (filename + [0])
    ensures Encoded([0, opCode], filename, mode) == first + (ModeString(mode) + [0])
  {
  }

  lemma PrefixOfTwoParts(whole: bytes, first: bytes, second: bytes)
    requires |first| + |second| <= |whole| && whole[..|first|] == first && whole[|first|..|first| + |second|] == second
    ensures first + second <= whole
  {
  }

  /** The allocator is asked for room for the longest mode name but one; room tells whether it has it. */
  method CreateRequest(opCode: byte, filename: bytes, mode: Mode, room: bool) returns (message: array?<byte>)
    requires NulFree(filename)
    ensures message == null <==> mode.UNDEFINED? || !room
    ensures message != null ==> fresh(message) && message.Length == |filename| + 14
    ensures message != null ==> Encoded([0, opCode], filename, mode) <= message[..]
  {
    if mode.UNDEFINED? || !room {
      return null;
    }
    NamesAreStrings(mode);
    hide ModeString, NulFree, Encoded;
    var modeStr := ModeString(mode);
    var request := new byte[4 + |filename| + 1 + |NETASCII_NAME| + 1];
    request[0], request[1] := 0, opCode;
    CopyString(request, FILENAME, filename);
    ghost var first := request[..FILENAME + |filename| + 1];
    assert first == [0, opCode] + (filename + [0]);
    EncodedInTwoParts(first, opCode, filename, mode);
    var modePtr := FILENAME + |filename| + 1;
    CopyString(request, modePtr, modeStr);
    ghost var second := request[modePtr..modePtr + |modeStr| + 1];
    PrefixOfTwoParts(request[..], first, second);
    message := request;
  }

  lemma PrefixBegins(mem: bytes, opcode: bytes, filename: bytes, mode: Mode)
    requires |opcode| == OPCODE_SIZE && NulFree(filename) && Encoded(opcode, filename, mode) <= mem
    ensures |mem| >= OPCODE_SIZE && mem[..OPCODE_SIZE] == opcode && Begins(mem, filename, mode)
  {
    assert Encoded(opcode, filename, mode)[..OPCODE_SIZE] == opcode;
  }

  lemma MailIsRefused(mem: bytes, messageSz: u16)
    requires Reach(messageSz) < |mem| && Nul(mem, FILENAME) < |mem| && GetMode(mem) == MAIL
    ensures !Validate(mem, messageSz)
  {
  }

  /** A created request of any mode but mail that fits a 16-bit size is accepted at its own size, and read
      back field by field; a mail request is refused. */
  lemma RoundTrip(mem: bytes, opCode: byte, filename: bytes, mode: Mode)
    requires !mode.UNDEFINED? && NulFree(filename) && |mem| == |filename| + 14
    requires Encoded([0, opCode], filename, mode) <= mem && |filename| + |ModeString(mode)| + 4 < WRAP
    ensures Nul(mem, FILENAME) < |mem| && Size(mem) == |filename| + |ModeString(mode)| + 4
    ensures Reach(Size(mem)) < |mem| && (Validate(mem, Size(mem)) <==> mode != MAIL)
    ensures GetMessageCode(mem) == opCode && CString(mem, FILENAME) == filename
    ensures GetMode(mem) == mode && CString(mem, GetModeStr(mem)) == ModeString(mode)
  {
    hide ModeString, Nul, CString, StrToEnum, Validate, Begins;
    PrefixBegins(mem, [0, opCode], filename, mode);
    hide Encoded;
    ReadBack(mem, filename, mode);
    NamesAreStrings(mode);
    StrToEnumIff(ModeString(mode), mode);
    assert GetMessageCode(mem) == opCode;
    if mode == MAIL {
      MailIsRefused(mem, Size(mem));
    }
    if mode != MAIL {
      RequestIsAccepted(mem, Size(mem), filename, mode);
    }
  }
}
