/**
 * The static file resolver behind `GET /file/{path}`
 * (internal/fileserver/fileserver.go, fileHandler): join the served root and
 * the path segment, refuse dotfiles unless they are allowed, and stream the
 * file to the response in 1 MiB chunks.
 */
module StaticFiles {
  import opened Common

  const KBYTE: int := 1024
  const BUF_SIZE: int := KBYTE * 1024

  // ---------------------------------------------------------------------------
  // Path resolution. A Go string is its UTF-8 bytes; the model keeps the
  // segment as a sequence of Unicode scalar values and counts its bytes.

  /** Number of bytes of `c` in UTF-8. */
  function Utf8Len(c: char): nat {
    if c as int < 0x80 then 1
    else if c as int < 0x800 then 2
    else if c as int < 0x10000 then 3
    else 4
  }

  /** Go's `len(s)`: the number of bytes of `s` in UTF-8. */
  function ByteLen(s: string): nat {
    if s == [] then 0 else ByteLen(s[..|s| - 1]) + Utf8Len(s[|s| - 1])
  }

  predicate IsAscii(s: string) {
    forall i :: 0 <= i < |s| ==> s[i] as int < 0x80
  }

  /** A string has at least as many bytes as characters, and exactly as many iff it is ASCII. */
  lemma {:induction false} ByteLenVsRunes(s: string)
    ensures ByteLen(s) >= |s|
    ensures ByteLen(s) == |s| <==> IsAscii(s)
    decreases |s|
  {
    if s != [] {
      var init := s[..|s| - 1];
      ByteLenVsRunes(init);
      assert forall i :: 0 <= i < |init| ==> init[i] == s[i];
      assert IsAscii(s) <==> IsAscii(init) && s[|s| - 1] as int < 0x80;
    }
  }

  /**
   * Line 83 as written: `[]rune(seg)[len(seg)-1]` indexes the rune slice with
   * the BYTE length. `None` is the index-out-of-range panic.
   */
  function LastRuneAsWritten(seg: string): Option<char>
    requires |seg| > 0
  {
    var i := ByteLen(seg) - 1;
    if 0 <= i < |seg| then Some(seg[i]) else None
  }

  /** Lines 82-89 as written: the joined path, or `None` when the handler panics. */
  function ResolveAsWritten(root: string, seg: string): Option<string>
    requires |seg| > 0
  {
    match LastRuneAsWritten(seg)
    case None => None
    case Some(c) => Some(if c != '/' then root + "/" + seg else root + seg)
  }

  /** The join the code means: a `/` goes between root and segment unless the segment already ends in one. */
  function ResolvePath(root: string, seg: string): (p: string)
    requires |seg| > 0
    ensures |p| >= |root| + |seg| && p[..|root|] == root
    ensures p[|p| - |seg|..] == seg
    ensures seg[|seg| - 1] == '/' ==> |p| == |root| + |seg|
    ensures seg[|seg| - 1] != '/' ==> |p| == |root| + 1 + |seg| && p[|root|] == '/'
  {
    if seg[|seg| - 1] != '/' then root + "/" + seg else root + seg
  }

  /**
   * The code as written agrees with the intended join exactly on ASCII
   * segments; any other character in the segment makes the handler panic.
   */
  lemma ResolveAsWrittenAgrees(root: string, seg: string)
    requires |seg| > 0
    ensures ResolveAsWritten(root, seg).Some? <==> IsAscii(seg)
    ensures IsAscii(seg) ==> ResolveAsWritten(root, seg) == Some(ResolvePath(root, seg))
  {
    ByteLenVsRunes(seg);
  }

  /** `/file/café.txt` cannot be served: 9 bytes, so the index is 8 in a slice of 8 runes. */
  lemma NonAsciiNamePanics()
    ensures ResolveAsWritten("/srv", "café.txt") == None
  {
    var seg := "café.txt";
    assert seg[..|seg| - 1] == "café.tx";
    assert "café.tx"[..6] == "café.t";
    assert "café.t"[..5] == "café.";
    assert "café."[..4] == "café";
    assert "café"[..3] == "caf";
    assert "caf"[..2] == "ca";
    assert "ca"[..1] == "c";
    assert "c"[..0] == "";
    assert ByteLen(seg) == 9;
  }

  /** Line 93: a segment starting with `.` is refused unless dotfiles are allowed. */
  predicate Blocked(seg: string, dotfiles: bool)
    requires |seg| > 0
  {
    seg[0] == '.' && !dotfiles
  }

  // ---------------------------------------------------------------------------
  // Streaming (lines 119-136).

  /** The response body the writes add up to. */
  function Concat(writes: seq<seq<byte>>): seq<byte> {
    if writes == [] then [] else Concat(writes[..|writes| - 1]) + writes[|writes| - 1]
  }

  /** Every write but the last is a full buffer, and the last one is short (possibly empty). */
  ghost predicate ChunkedAsStreamed(writes: seq<seq<byte>>) {
    |writes| > 0 &&
    (forall i :: 0 <= i < |writes| - 1 ==> |writes[i]| == BUF_SIZE) &&
    |writes[|writes| - 1]| < BUF_SIZE
  }

  /**
   * `file.Seek(off, 0)` then `file.Read(buf)` on a regular file: copies the
   * next `min(len(buf), remaining)` bytes into the front of `buf`.
   */
  method ReadAt(file: array<byte>, off: int, buf: array<byte>) returns (n: int)
    requires 0 <= off && buf != file
    modifies buf
    ensures n == if off >= file.Length then 0
                 else if file.Length - off < buf.Length then file.Length - off
                 else buf.Length
    ensures 0 <= n <= buf.Length
    ensures n > 0 ==> off + n <= file.Length && buf[..n] == file[off..off + n]
  {
    n := if off >= file.Length then 0
         else if file.Length - off < buf.Length then file.Length - off
         else buf.Length;
    var k := 0;
    while k < n
      invariant 0 <= k <= n
      invariant forall j :: 0 <= j < k ==> buf[j] == file[off + j]
    {
      buf[k] := file[off + k];
      k := k + 1;
    }
    assert n == 0 || buf[..n] == file[off..off + n];
  }

  /**
   * The streaming loop: read a buffer, write what was read, advance, until a
   * read comes back shorter than the buffer. Returns the writes in order.
   */
  method Stream(file: array<byte>) returns (writes: seq<seq<byte>>)
    ensures Concat(writes) == file[..]
    ensures |writes| == file.Length / BUF_SIZE + 1
    ensures forall i :: 0 <= i < |writes| ==> |writes[i]| <= BUF_SIZE
    ensures ChunkedAsStreamed(writes)
    ensures file.Length % BUF_SIZE == 0 ==> writes[|writes| - 1] == []
  {
    var bufSize := BUF_SIZE;
    var bufNum := 0;
    var fBuf := new byte[bufSize];
    var bRead := bufSize;
    ghost var sent := 0;
    writes := [];
    while bRead == bufSize
      invariant |writes| == bufNum && sent == bufSize * bufNum
      invariant 0 <= bRead <= bufSize
      invariant bRead == bufSize ==> sent <= file.Length && Concat(writes) == file[..sent]
      invariant bRead < bufSize ==> bufNum > 0 && file.Length == sent - bufSize + bRead && Concat(writes) == file[..]
      invariant forall i :: 0 <= i < |writes| - 1 ==> |writes[i]| == bufSize
      invariant bRead == bufSize && |writes| > 0 ==> |writes[|writes| - 1]| == bufSize
      invariant bRead < bufSize ==> |writes[|writes| - 1]| == bRead
      decreases file.Length - sent + bRead
    {
      var off := bufSize * bufNum;
      var chunk;
      bRead, chunk := NextChunk(file, off, fBuf);
      ChunkStep(file[..], off, chunk, writes);
      writes := writes + [chunk];
      bufNum := bufNum + 1;
      sent := sent + bufSize;
    }
    ChunkCount(file.Length, bufNum - 1, bRead);
  }

  /**
   * One turn of the loop: seek to `off`, read into the buffer, and write the
   * whole buffer after a full read or the part that was read otherwise.
   */
  method NextChunk(file: array<byte>, off: int, fBuf: array<byte>) returns (bRead: int, chunk: seq<byte>)
    requires 0 <= off <= file.Length && fBuf != file && fBuf.Length == BUF_SIZE
    modifies fBuf
    ensures bRead == if file.Length - off < BUF_SIZE then file.Length - off else BUF_SIZE
    ensures chunk == file[off..off + bRead]
  {
    bRead := ReadAt(file, off, fBuf);
    if bRead == fBuf.Length {
      chunk := fBuf[..];
    } else {
      chunk := fBuf[..bRead];
    }
  }

  /** Appending the next chunk of `s` extends the streamed prefix by that chunk. */
  lemma ChunkStep(s: seq<byte>, off: nat, chunk: seq<byte>, writes: seq<seq<byte>>)
    requires off + |chunk| <= |s| && chunk == s[off..off + |chunk|] && Concat(writes) == s[..off]
    ensures Concat(writes + [chunk]) == s[..off + |chunk|]
  {
    assert (writes + [chunk])[..|writes|] == writes;
    assert s[..off] + chunk == s[..off + |chunk|];
  }

  /** A length of `n` full buffers and a short rest has `n` as its quotient and the rest as remainder. */
  lemma ChunkCount(len: int, n: nat, rest: int)
    requires 0 <= rest < BUF_SIZE && len == BUF_SIZE * n + rest
    ensures len / BUF_SIZE == n && len % BUF_SIZE == rest
  {
  }
}
