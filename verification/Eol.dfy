/** Whole-file line-end conversion: what a netascii upload is meant to leave on disk. */
module Eol {
  import opened Bytes

  /** How many bytes the first unit of s spans: a CRLF pair is one unit. */
  function Width(s: bytes): (w: nat)
    requires s != []
    ensures 1 <= w <= |s|
  {
    if |s| > 1 && s[0] == CR && s[1] == LF then 2 else 1
  }

  /** What the first unit of s becomes. */
  function Emit(s: bytes): bytes
    requires s != []
  {
    if Width(s) == 2 || s[0] == LF then CRLF else [s[0]]
  }

  /** Every CRLF and every LF without a CR before it becomes CRLF; all other bytes stay. */
  function Normalize(s: bytes): bytes
  {
    if s == [] then [] else Emit(s) + Normalize(s[Width(s)..])
  }

  /** No CRLF pair lies across the cut between a and b. */
  predicate CleanCut(a: bytes, b: bytes)
  {
    !(a != [] && a[|a| - 1] == CR && b != [] && b[0] == LF)
  }

  /** The two characters of a netascii line end. */
  lemma LineEndsSpelled()
    ensures CR == '\r' as int && LF == '\n' as int && CRLF == [13, 10]
  {
  }

  lemma NormalizeUnit(s: bytes)
    ensures Normalize([]) == []
    ensures s != [] ==> Normalize(s) == Emit(s) + Normalize(s[Width(s)..])
  {
  }

  lemma {:induction false} NormalizeCut(a: bytes, b: bytes)
    requires CleanCut(a, b)
    ensures Normalize(a + b) == Normalize(a) + Normalize(b)
    decreases |a|
  {
    hide Normalize;
    NormalizeUnit(a);
    NormalizeUnit(a + b);
    if a == [] {
      assert a + b == b;
    } else {
      var w := Width(a);
      assert Width(a + b) == w && Emit(a + b) == Emit(a);
      assert (a + b)[w..] == a[w..] + b;
      NormalizeCut(a[w..], b);
    }
  }

  lemma {:induction false} NormalizeDirtyCut(a: bytes, b: bytes)
    requires !CleanCut(a, b)
    ensures |Normalize(a + b)| + 1 == |Normalize(a)| + |Normalize(b)|
  {
    var a', b' := a[..|a| - 1], b[1..];
    assert a == a' + [CR] && b == [LF] + b';
    assert a + b == a' + (CRLF + b') && (CRLF + b')[2..] == b';
    NormalizeCut(a', CRLF + b');
    NormalizeCut(a', [CR]);
    assert Normalize([CR]) == [CR];
  }

  /** A file can be converted in two parts exactly when the cut is clean. */
  lemma NormalizeSplitsIff(a: bytes, b: bytes)
    ensures Normalize(a + b) == Normalize(a) + Normalize(b) <==> CleanCut(a, b)
  {
    if CleanCut(a, b) {
      NormalizeCut(a, b);
    } else {
      NormalizeDirtyCut(a, b);
    }
  }

  /** Line ends of s are native: no LF stands without a CR in front of it. */
  predicate NativeLineEnds(s: bytes)
  {
    forall i :: 0 <= i < |s| && s[i] == LF ==> i > 0 && s[i - 1] == CR
  }

  lemma {:induction false} NormalizeIsNative(s: bytes)
    ensures NativeLineEnds(Normalize(s))
    decreases |s|
  {
    if s != [] {
      NormalizeIsNative(s[Width(s)..]);
    }
  }

  lemma NativeUnitKept(s: bytes)
    requires s != [] && NativeLineEnds(s)
    ensures s == Emit(s) + s[Width(s)..] && NativeLineEnds(s[Width(s)..])
  {
    var w, t := Width(s), s[Width(s)..];
    assert s[0] != LF;
    forall i | 0 <= i < |t| && t[i] == LF ensures i > 0 && t[i - 1] == CR {
      assert t[i] == s[i + w];
    }
  }

  /** Converting is the identity exactly on files whose line ends are already native. */
  lemma {:induction false} NormalizeFixpoint(s: bytes)
    ensures Normalize(s) == s <==> NativeLineEnds(s)
    decreases |s|
  {
    NormalizeIsNative(s);
    NormalizeUnit(s);
    hide Normalize;
    if NativeLineEnds(s) && s != [] {
      NativeUnitKept(s);
      hide NativeLineEnds, Emit;
      NormalizeFixpoint(s[Width(s)..]);
    }
  }
}
