/** doDecrypt: the segments of the ciphertext log, one per IV/END pair of the metadata file,
    decrypted one after the other under a fresh cipher session each, with one running offset for
    the whole log; and the filetype check that decrypt() makes before it. */
module Decryption {
  import opened Common
  import opened Records
  import opened Validators
  import opened Padding
  import opened Segments

  // ---------------------------------------------------------------------------------------
  // initCrypt

  /** What initCrypt makes of the metadata at `pos`: 1 when the block length does not fit the IV
      buffer (no record is read then); eiGetIV's code when the IV record is not accepted; 1 when
      strlen(key) is not the key length; otherwise the session the cipher handle gets, with the
      key's characters and the decoded IV. The second component is where the metadata file is
      left. */
  function InitSpec(f: Format, alg: Algorithm, key: string, text: string, pos: nat): (r: (Outcome<Session>, nat))
    requires f.Valid() && pos <= |text|
    ensures pos <= r.1 <= |text|
    ensures r.0.Fail? ==> r.0.code != 0
    ensures r.0.Ok? ==> pos < r.1 && |r.0.value.iv| == alg.blkLen && |r.0.value.key| == alg.keyLen
  {
    if alg.blkLen > IvBufferSize then (Fail(1), pos)
    else
      var (rec, next) := NextRecord(f, text, pos);
      match IvFromRecord(rec, alg.blkLen)
      case Fail(c) => (Fail(c), next)
      case Ok(iv) =>
        if !KeyLengthOk(key, alg.keyLen) then (Fail(1), next) else (Ok(Session(CStr(key), iv)), next)
  }

  /** A key of the wrong length is refused whatever the metadata holds, but only after the IV
      record has been read (when the block length fits the IV buffer): the metadata file is left
      past the IV record either way. */
  lemma {:induction false} InitRejectsBadKey(f: Format, alg: Algorithm, key: string, text: string, pos: nat)
    requires f.Valid() && pos <= |text| && !KeyLengthOk(key, alg.keyLen)
    ensures InitSpec(f, alg, key, text, pos).0.Fail?
    ensures alg.blkLen <= IvBufferSize ==> InitSpec(f, alg, key, text, pos).1 == NextRecord(f, text, pos).1
    ensures alg.blkLen > IvBufferSize ==> InitSpec(f, alg, key, text, pos) == (Fail(1), pos)
  {
  }

  /** initCrypt succeeds exactly when the block length fits the IV buffer, eiGetIV accepts the
      next record and the key has the right length; the session then holds the key's characters
      and the decoded IV. A block length too large for the buffer fails before any record is
      read. */
  lemma {:induction false} InitSucceedsIff(f: Format, alg: Algorithm, key: string, text: string, pos: nat)
    requires f.Valid() && pos <= |text|
    ensures alg.blkLen > IvBufferSize ==> InitSpec(f, alg, key, text, pos).0 == Fail(1)
    ensures alg.blkLen > IvBufferSize ==> InitSpec(f, alg, key, text, pos).1 == pos
    ensures alg.blkLen <= IvBufferSize ==> InitSpec(f, alg, key, text, pos).1 == NextRecord(f, text, pos).1
    ensures InitSpec(f, alg, key, text, pos).0.Ok? <==>
      && alg.blkLen <= IvBufferSize
      && IvFromRecord(NextRecord(f, text, pos).0, alg.blkLen).Ok?
      && KeyLengthOk(key, alg.keyLen)
    ensures InitSpec(f, alg, key, text, pos).0.Ok? ==>
      InitSpec(f, alg, key, text, pos).0.value
      == Session(CStr(key), IvFromRecord(NextRecord(f, text, pos).0, alg.blkLen).value)
  {
  }

  /** initCrypt(eifp, GCRY_CIPHER_MODE_CBC, key) up to the cipher calls: the block-length check,
      eiGetIV into a 4096-byte buffer, then the key-length check. On success `sess` is what the
      cipher handle is set up with. */
  method InitCrypt(f: Format, alg: Algorithm, key: string, eif: TextFile) returns (r: int, sess: Session)
    requires f.Valid() && eif.Valid()
    modifies eif
    ensures eif.Valid()
    ensures var res := InitSpec(f, alg, key, eif.text, old(eif.pos));
      r == res.0.Code() && eif.pos == res.1 && (res.0.Ok? ==> sess == res.0.value)
  {
    sess := Session([], []);
    if alg.blkLen > IvBufferSize {
      return 1, sess;
    }
    var iv := new byte[IvBufferSize];
    r := GetIV(f, eif, iv, alg.blkLen);
    if r != 0 {
      return;
    }
    var keyLength := |CStr(key)|;
    if keyLength != alg.keyLen {
      return 1, sess;
    }
    sess := Session(CStr(key), iv[..alg.blkLen]);
  }

  // ---------------------------------------------------------------------------------------
  // The segment loop of doDecrypt

  /** Why doDecrypt's loop stops: initCrypt failed (also at the end of the metadata file, where
      no IV record is left), or eiGetEND failed. The loop has no other exit. */
  datatype Stop = InitFailed(code: int) | EndFailed(code: int)

  /** What one pass of doDecrypt reads from the metadata: the session and END offset of the next
      segment, or the failure that ends the loop. */
  datatype Header = Begin(sess: Session, blkEnd: int) | Halt(stop: Stop)

  /** initCrypt, then eiGetEND, from metadata position `pos`; the second component is where the
      metadata file is left. */
  function ReadHeader(f: Format, alg: Algorithm, key: string, text: string, pos: nat): (r: (Header, nat))
    requires f.Valid() && pos <= |text|
    ensures pos <= r.1 <= |text|
    ensures r.0.Begin? ==> pos < r.1
    ensures r.0.Halt? ==> r.0.stop.code != 0
  {
    var (init, p1) := InitSpec(f, alg, key, text, pos);
    match init
    case Fail(c) => (Halt(InitFailed(c)), p1)
    case Ok(sess) =>
      var (rec, p2) := NextRecord(f, text, p1);
      match EndFromRecord(rec)
      case Fail(c) => (Halt(EndFailed(c)), p2)
      case Ok(blkEnd) => (Begin(sess, blkEnd), p2)
  }

  /** Where doDecrypt ends: why it stopped, how many segments it decrypted, where the metadata and
      log files are left, the running offset, and everything written to the output. */
  datatype Run = Run(stop: Stop, segments: nat, ePos: nat, inPos: nat, offs: int, out: seq<byte>)

  /** doDecrypt's loop from metadata position `ePos`, log position `inPos`, running offset `offs`,
      `segments` segments done and output `out` so far: each pass reads a header and, when it
      begins a segment, decrypts that segment with decryptBlock and goes on. The offset moves
      by exactly the log bytes read, every stop carries a non-zero code, and output is only
      ever appended. */
  function RunFrom(f: Format, alg: Algorithm, key: string, text: string, data: seq<byte>, ePos: nat,
                   inPos: nat, offs: int, segments: nat, out: seq<byte>): (r: Run)
    requires f.Valid() && alg.Valid() && ePos <= |text| && inPos <= |data|
    ensures ePos <= r.ePos <= |text| && inPos <= r.inPos <= |data|
    ensures r.offs - offs == r.inPos - inPos
    ensures segments <= r.segments && out <= r.out
    ensures r.stop.code != 0
    decreases |text| - ePos
  {
    var (h, next) := ReadHeader(f, alg, key, text, ePos);
    match h
    case Halt(stop) => Run(stop, segments, next, inPos, offs, out)
    case Begin(sess, blkEnd) =>
      var e := Segment(alg, sess, data, inPos, offs, blkEnd);
      RunFrom(f, alg, key, text, data, next, e.inPos, e.offs, segments + 1, out + Output(e.plains))
  }

  /** The int doDecrypt returns, None where C leaves it undefined. When eiGetEND ends the loop it
      is that routine's code. When initCrypt ends it, `r` is not assigned: it still holds 0 from
      the previous pass's eiGetEND, or nothing at all in the first pass. */
  function ReturnValue(run: Run): (v: Option<int>)
    requires run.stop.code != 0
    ensures v == Some(run.stop.code) <==> run.stop.EndFailed?
    ensures v == Some(0) <==> run.stop.InitFailed? && run.segments > 0
    ensures v.None? <==> run.stop.InitFailed? && run.segments == 0
  {
    match run.stop
    case EndFailed(c) => Some(c)
    case InitFailed(_) => if run.segments == 0 then None else Some(0)
  }

  /** One pass of the loop that begins a segment goes on with the rest of the metadata from
      where that segment `e` left the log and the offset. */
  lemma {:induction false} RunGoesOn(f: Format, alg: Algorithm, key: string, text: string, data: seq<byte>, ePos: nat,
                  inPos: nat, offs: int, segments: nat, out: seq<byte>, h: Header, next: nat, e: SegmentEnd)
    requires f.Valid() && alg.Valid() && ePos <= |text| && inPos <= |data|
    requires ReadHeader(f, alg, key, text, ePos).0 == h && ReadHeader(f, alg, key, text, ePos).1 == next
    requires h.Begin? && e == Segment(alg, h.sess, data, inPos, offs, h.blkEnd)
    ensures next <= |text| && e.inPos <= |data|
    ensures RunFrom(f, alg, key, text, data, ePos, inPos, offs, segments, out)
            == RunFrom(f, alg, key, text, data, next, e.inPos, e.offs, segments + 1, out + Output(e.plains))
  {
  }

  /** A pass of the loop whose header read fails ends the loop with nothing more read from the
      log or written. */
  lemma {:induction false} RunHalts(f: Format, alg: Algorithm, key: string, text: string, data: seq<byte>, ePos: nat,
                 inPos: nat, offs: int, segments: nat, out: seq<byte>, h: Header, next: nat)
    requires f.Valid() && alg.Valid() && ePos <= |text| && inPos <= |data|
    requires ReadHeader(f, alg, key, text, ePos) == (h, next) && h.Halt?
    ensures RunFrom(f, alg, key, text, data, ePos, inPos, offs, segments, out)
            == Run(h.stop, segments, next, inPos, offs, out)
  {
  }

  /** The first two steps of a pass of doDecrypt: initCrypt, then, when it succeeds, eiGetEND. */
  method NextHeader(f: Format, alg: Algorithm, key: string, eif: TextFile) returns (h: Header)
    requires f.Valid() && eif.Valid()
    modifies eif
    ensures eif.Valid()
    ensures (h, eif.pos) == ReadHeader(f, alg, key, eif.text, old(eif.pos))
  {
    var r, sess := InitCrypt(f, alg, key, eif);
    if r != 0 {
      return Halt(InitFailed(r));
    }
    var re, blkEnd := ReadEnd(f, eif);
    if re != 0 {
      return Halt(EndFailed(re));
    }
    h := Begin(sess, blkEnd);
  }

  /** One pass of doDecrypt's loop: initCrypt and eiGetEND, then, when both succeed,
      decryptBlock from the running offset `currOffs`. The run from the state before the pass is
      the run from the state after it, or ends with the header's failure. */
  method Pass(f: Format, alg: Algorithm, key: string, eif: TextFile, fpin: ByteFile, fpout: OutFile,
              currOffs: int, ghost segments: nat) returns (h: Header, newOffs: int)
    requires f.Valid() && alg.Valid() && eif.Valid() && fpin.Valid()
    modifies eif, fpin, fpout
    ensures eif.Valid() && fpin.Valid()
    ensures old(eif.pos) <= eif.pos && (h.Begin? ==> old(eif.pos) < eif.pos)
    ensures h.Halt? ==> h.stop.code != 0
    ensures var run := RunFrom(f, alg, key, eif.text, fpin.data, old(eif.pos), old(fpin.pos), currOffs,
                               segments, old(fpout.written));
      if h.Halt? then run == Run(h.stop, segments, eif.pos, fpin.pos, currOffs, fpout.written)
      else run == RunFrom(f, alg, key, eif.text, fpin.data, eif.pos, fpin.pos, newOffs, segments + 1,
                          fpout.written)
  {
    ghost var ePos := eif.pos;
    h := NextHeader(f, alg, key, eif);
    if h.Halt? {
      RunHalts(f, alg, key, eif.text, fpin.data, ePos, fpin.pos, currOffs, segments, fpout.written, h, eif.pos);
      return h, currOffs;
    }
    ghost var e := Segment(alg, h.sess, fpin.data, fpin.pos, currOffs, h.blkEnd);
    ghost var written := fpout.written;
    RunGoesOn(f, alg, key, eif.text, fpin.data, ePos, fpin.pos, currOffs, segments, written, h, eif.pos, e);
    newOffs := DecryptBlock(alg, h.sess, fpin, fpout, h.blkEnd, currOffs);
    assert fpin.pos == e.inPos && newOffs == e.offs && fpout.written == written + Output(e.plains);
  }

  /** The loop of doDecrypt(logfp, eifp, outfp, key): `currOffs` starts at 0 and is carried
      through every segment; each pass is initCrypt, eiGetEND, decryptBlock, and closing the
      handle, until one of them halts. Returns the routine that halted it and whether any segment
      was begun, which is all that decides doDecrypt's `r`. */
  method DecryptSegments(f: Format, alg: Algorithm, key: string, eif: TextFile, fpin: ByteFile,
                         fpout: OutFile) returns (stop: Stop, began: bool)
    requires f.Valid() && alg.Valid() && eif.Valid() && fpin.Valid()
    modifies eif, fpin, fpout
    ensures eif.Valid() && fpin.Valid()
    ensures var run := RunFrom(f, alg, key, eif.text, fpin.data, old(eif.pos), old(fpin.pos), 0, 0,
                               old(fpout.written));
      stop == run.stop && began == (run.segments > 0) && eif.pos == run.ePos && fpin.pos == run.inPos
      && fpout.written == run.out
  {
    var currOffs: int := 0;
    ghost var segments: nat := 0;
    began := false;
    ghost var goal := RunFrom(f, alg, key, eif.text, fpin.data, eif.pos, fpin.pos, 0, 0, fpout.written);
    while true
      invariant eif.Valid() && fpin.Valid()
      invariant goal == RunFrom(f, alg, key, eif.text, fpin.data, eif.pos, fpin.pos, currOffs, segments,
                                fpout.written)
      invariant began == (segments > 0)
      decreases |eif.text| - eif.pos
    {
      var h, newOffs := Pass(f, alg, key, eif, fpin, fpout, currOffs, segments);
      if h.Halt? {
        assert goal == Run(h.stop, segments, eif.pos, fpin.pos, currOffs, fpout.written);
        return h.stop, began;
      }
      began := true;
      currOffs := newOffs;
      segments := segments + 1;
    }
  }

  /** doDecrypt: returns eiGetEND's code when that routine ends the loop, 0 when initCrypt ends
      it after a segment, and nothing defined when initCrypt fails at once. */
  method DoDecrypt(f: Format, alg: Algorithm, key: string, eif: TextFile, fpin: ByteFile,
                   fpout: OutFile) returns (r: Option<int>)
    requires f.Valid() && alg.Valid() && eif.Valid() && fpin.Valid()
    modifies eif, fpin, fpout
    ensures eif.Valid() && fpin.Valid()
    ensures var run := RunFrom(f, alg, key, eif.text, fpin.data, old(eif.pos), old(fpin.pos), 0, 0,
                               old(fpout.written));
      r == ReturnValue(run) && eif.pos == run.ePos && fpin.pos == run.inPos && fpout.written == run.out
  {
    var stop, began := DecryptSegments(f, alg, key, eif, fpin, fpout);
    r := if stop.EndFailed? then Some(stop.code) else if began then Some(0) else None;
  }

  // ---------------------------------------------------------------------------------------
  // Properties of the segment loop

  /** A key of the wrong length decrypts nothing: the loop stops in its first initCrypt, and
      the log, the offset and the output are as they were. */
  lemma {:induction false} BadKeyDecryptsNothing(f: Format, alg: Algorithm, key: string, text: string, data: seq<byte>,
                              ePos: nat, inPos: nat, offs: int, segments: nat, out: seq<byte>)
    requires f.Valid() && alg.Valid() && ePos <= |text| && inPos <= |data| && !KeyLengthOk(key, alg.keyLen)
    ensures var r := RunFrom(f, alg, key, text, data, ePos, inPos, offs, segments, out);
      r.stop.InitFailed? && r.segments == segments && r.inPos == inPos && r.offs == offs && r.out == out
  {
    InitRejectsBadKey(f, alg, key, text, ePos);
  }

  /** Which headers the loop reads, where it stops and why do not depend on the ciphertext log or
      on what was written before: the metadata walk is the same for any two logs. */
  lemma {:induction false} MetadataWalkIgnoresLog(f: Format, alg: Algorithm, key: string, text: string,
                                                  ePos: nat, segments: nat,
                                                  data1: seq<byte>, inPos1: nat, offs1: int, out1: seq<byte>,
                                                  data2: seq<byte>, inPos2: nat, offs2: int, out2: seq<byte>)
    requires f.Valid() && alg.Valid() && ePos <= |text| && inPos1 <= |data1| && inPos2 <= |data2|
    ensures var r1 := RunFrom(f, alg, key, text, data1, ePos, inPos1, offs1, segments, out1);
      var r2 := RunFrom(f, alg, key, text, data2, ePos, inPos2, offs2, segments, out2);
      r1.stop == r2.stop && r1.segments == r2.segments && r1.ePos == r2.ePos
    decreases |text| - ePos
  {
    var (h, next) := ReadHeader(f, alg, key, text, ePos);
    if h.Begin? {
      var e1 := Segment(alg, h.sess, data1, inPos1, offs1, h.blkEnd);
      var e2 := Segment(alg, h.sess, data2, inPos2, offs2, h.blkEnd);
      MetadataWalkIgnoresLog(f, alg, key, text, next, segments + 1,
                             data1, e1.inPos, e1.offs, out1 + Output(e1.plains),
                             data2, e2.inPos, e2.offs, out2 + Output(e2.plains));
    }
  }

  /** What the encrypting side records for one segment: its IV and its END offset. */
  datatype SegmentInfo = SegmentInfo(iv: seq<byte>, end: nat)

  /** The two metadata lines a writer emits for one segment. */
  function SegmentLines(s: SegmentInfo): string {
    Line("IV", HexEncode(s.iv)) + Line("END", DecimalString(s.end))
  }

  /** The metadata lines a writer emits for a list of segments, one pair after the other. */
  function MetaLines(segs: seq<SegmentInfo>): string
    decreases |segs|
  {
    if segs == [] then [] else SegmentLines(segs[0]) + MetaLines(segs[1..])
  }

  /** Segments whose lines eiGetRecord reads back unchanged: IVs of the cipher's block length and
      values within the value bound. */
  predicate Recordable(f: Format, alg: Algorithm, segs: seq<SegmentInfo>) {
    && 3 <= f.maxRectypeLen && 3 + 2 * alg.blkLen <= f.maxValueLen
    && forall i :: 0 <= i < |segs| ==>
         |segs[i].iv| == alg.blkLen && 4 + |DecimalString(segs[i].end)| <= f.maxValueLen
  }

  /** The reference for a run over well-formed metadata: each recorded segment decrypted in turn
      with a fresh session under its own IV, from where the previous one left the log and the
      offset; the log position, the offset and the output at the end. */
  function Trace(alg: Algorithm, key: string, data: seq<byte>, segs: seq<SegmentInfo>, inPos: nat,
                 offs: int, out: seq<byte>): (t: (nat, int, seq<byte>))
    requires alg.Valid() && inPos <= |data|
    ensures inPos <= t.0 <= |data| && t.1 - offs == t.0 - inPos
    decreases |segs|
  {
    if segs == [] then (inPos, offs, out)
    else
      var e := Segment(alg, Session(key, segs[0].iv), data, inPos, offs, segs[0].end);
      Trace(alg, key, data, segs[1..], e.inPos, e.offs, out + Output(e.plains))
  }

  /** ReadHeader begins a segment when the block length fits the IV buffer, eiGetIV accepts the
      next record, the key has the right length and eiGetEND accepts the record after it: the
      session holds the key and the decoded IV. */
  lemma {:induction false} HeaderOfRecords(f: Format, alg: Algorithm, key: string, text: string, pos: nat,
                                           ivRec: RecordResult, iv: seq<byte>, p1: nat,
                                           endRec: RecordResult, n: int, p2: nat)
    requires f.Valid() && pos <= |text| && alg.blkLen <= IvBufferSize && KeyLengthOk(key, alg.keyLen)
    requires NextRecord(f, text, pos).0 == ivRec && NextRecord(f, text, pos).1 == p1
    requires IvFromRecord(ivRec, alg.blkLen) == Ok(iv)
    requires NextRecord(f, text, p1).0 == endRec && NextRecord(f, text, p1).1 == p2
    requires EndFromRecord(endRec) == Ok(n)
    ensures ReadHeader(f, alg, key, text, pos).0 == Begin(Session(CStr(key), iv), n)
    ensures ReadHeader(f, alg, key, text, pos).1 == p2
  {
  }

  /** An IV line whose value eiGetIV accepts, and after it an END line whose value eiGetEND
      accepts, are read as a header beginning a segment under that IV, given a key of the right
      length; the metadata file is left after the END line. */
  lemma {:induction false} HeaderOfLineAt(f: Format, alg: Algorithm, key: string, text: string, pos: nat,
                                          iv: seq<byte>, hex: string, n: int, digits: string, p1: nat)
    requires f.Valid() && alg.blkLen <= IvBufferSize && KeyLengthOk(key, alg.keyLen)
    requires Representable(f, "IV", hex) && Representable(f, "END", digits)
    requires IvFromRecord(Record("IV", hex), alg.blkLen) == Ok(iv)
    requires EndFromRecord(Record("END", digits)) == Ok(n)
    requires LineAt(text, pos, Line("IV", hex)) && p1 == pos + |Line("IV", hex)| && LineAt(text, p1, Line("END", digits))
    ensures ReadHeader(f, alg, key, text, pos).0 == Begin(Session(CStr(key), iv), n)
    ensures ReadHeader(f, alg, key, text, pos).1 == p1 + |Line("END", digits)|
  {
    NextRecordOfLine(f, text, pos, "IV", hex);
    NextRecordOfLine(f, text, p1, "END", digits);
    HeaderOfRecords(f, alg, key, text, pos, Record("IV", hex), iv, p1, Record("END", digits), n,
                    p1 + |Line("END", digits)|);
  }

  /** The same, for the two lines held together at `pos`. */
  lemma {:induction false} HeaderOfLines(f: Format, alg: Algorithm, key: string, text: string, pos: nat, iv: seq<byte>,
                                         hex: string, n: int, digits: string)
    requires f.Valid() && alg.blkLen <= IvBufferSize && KeyLengthOk(key, alg.keyLen)
    requires Representable(f, "IV", hex) && Representable(f, "END", digits)
    requires IvFromRecord(Record("IV", hex), alg.blkLen) == Ok(iv)
    requires EndFromRecord(Record("END", digits)) == Ok(n)
    requires LineAt(text, pos, Line("IV", hex) + Line("END", digits))
    ensures ReadHeader(f, alg, key, text, pos).0 == Begin(Session(CStr(key), iv), n)
    ensures ReadHeader(f, alg, key, text, pos).1 == pos + |Line("IV", hex) + Line("END", digits)|
  {
    LineAtSplit(text, pos, Line("IV", hex), Line("END", digits));
    HeaderOfLineAt(f, alg, key, text, pos, iv, hex, n, digits, pos + |Line("IV", hex)|);
  }

  /** The lines a writer emits for a recordable segment carry values eiGetRecord reads whole and
      eiGetIV and eiGetEND decode back to the segment's IV and END offset. */
  lemma {:induction false} SegmentSpelled(f: Format, alg: Algorithm, s: SegmentInfo)
    requires 3 <= f.maxRectypeLen && 3 + 2 * alg.blkLen <= f.maxValueLen && |s.iv| == alg.blkLen
    requires 4 + |DecimalString(s.end)| <= f.maxValueLen
    ensures Representable(f, "IV", HexEncode(s.iv)) && Representable(f, "END", DecimalString(s.end))
    ensures IvFromRecord(Record("IV", HexEncode(s.iv)), alg.blkLen) == Ok(s.iv)
    ensures EndFromRecord(Record("END", DecimalString(s.end))) == Ok(s.end)
  {
    HexEncodePlain(s.iv);
    IvRoundTrip(s.iv);
    EndRoundTrip(s.end);
    var digits := DecimalString(s.end);
    assert NUL !in digits && '\n' !in digits;
  }

  /** Text whose rest from `pos` is `a + b` holds `a` at `pos`, and its rest after `a` is `b`. */
  lemma {:induction false} RestSplit(text: string, pos: nat, a: string, b: string)
    requires pos <= |text| && text[pos..] == a + b
    ensures LineAt(text, pos, a) && text[pos + |a|..] == b
  {
    assert text[pos..pos + |a|] == (a + b)[..|a|];
    assert text[pos + |a|..] == (a + b)[|a|..];
    LineAtIsSlice(text, pos, a);
  }

  /** Metadata text from `pos` on holds the first segment's lines at `pos`, and after them the
      lines of the other segments. */
  lemma {:induction false} FirstSegmentLines(text: string, pos: nat, segs: seq<SegmentInfo>)
    requires segs != [] && pos <= |text| && text[pos..] == MetaLines(segs)
    ensures LineAt(text, pos, SegmentLines(segs[0]))
    ensures text[pos + |SegmentLines(segs[0])|..] == MetaLines(segs[1..])
  {
    assert MetaLines(segs) == SegmentLines(segs[0]) + MetaLines(segs[1..]);
    RestSplit(text, pos, SegmentLines(segs[0]), MetaLines(segs[1..]));
  }

  /** The first IV/END pair of well-formed metadata is read as a header beginning that segment
      under a fresh session, and leaves the metadata file at the lines of the other segments. */
  lemma {:induction false} SegmentHeader(f: Format, alg: Algorithm, key: string, text: string, pos: nat,
                                         segs: seq<SegmentInfo>)
    requires f.Valid() && alg.blkLen <= IvBufferSize && KeyLengthOk(key, alg.keyLen)
    requires Recordable(f, alg, segs) && segs != []
    requires pos <= |text| && text[pos..] == MetaLines(segs)
    ensures pos + |SegmentLines(segs[0])| <= |text|
    ensures ReadHeader(f, alg, key, text, pos).0 == Begin(Session(CStr(key), segs[0].iv), segs[0].end)
    ensures ReadHeader(f, alg, key, text, pos).1 == pos + |SegmentLines(segs[0])|
    ensures text[pos + |SegmentLines(segs[0])|..] == MetaLines(segs[1..])
  {
    var s := segs[0];
    FirstSegmentLines(text, pos, segs);
    assert |s.iv| == alg.blkLen && 4 + |DecimalString(s.end)| <= f.maxValueLen;
    SegmentSpelled(f, alg, s);
    HeaderOfLines(f, alg, key, text, pos, s.iv, HexEncode(s.iv), s.end, DecimalString(s.end));
  }

  /** At the end of the metadata file initCrypt finds no record and the loop stops with code 1,
      nothing more read from the log or written. */
  lemma {:induction false} RunAtMetadataEnd(f: Format, alg: Algorithm, key: string, text: string,
                                            data: seq<byte>, pos: nat, inPos: nat, offs: int,
                                            segments: nat, out: seq<byte>)
    requires f.Valid() && alg.Valid() && alg.blkLen <= IvBufferSize && inPos <= |data| && pos == |text|
    ensures RunFrom(f, alg, key, text, data, pos, inPos, offs, segments, out)
            == Run(InitFailed(1), segments, |text|, inPos, offs, out)
  {
    assert NextRecord(f, text, pos).0 == NoLine;
  }

  /** One pass of the loop over well-formed metadata: it reads the first IV/END pair, decrypts
      that segment of the log under a fresh session, and goes on at the next pair. */
  lemma {:induction false} RunFirstSegment(f: Format, alg: Algorithm, key: string, text: string, pos: nat,
                                           segs: seq<SegmentInfo>, data: seq<byte>, inPos: nat,
                                           offs: int, segments: nat, out: seq<byte>)
    returns (next: nat, e: SegmentEnd)
    requires f.Valid() && alg.Valid() && alg.blkLen <= IvBufferSize && KeyLengthOk(key, alg.keyLen)
    requires Recordable(f, alg, segs) && inPos <= |data| && segs != []
    requires pos <= |text| && text[pos..] == MetaLines(segs)
    ensures next <= |text| && text[next..] == MetaLines(segs[1..]) && Recordable(f, alg, segs[1..])
    ensures e == Segment(alg, Session(CStr(key), segs[0].iv), data, inPos, offs, segs[0].end)
    ensures e.inPos <= |data|
    ensures RunFrom(f, alg, key, text, data, pos, inPos, offs, segments, out)
            == RunFrom(f, alg, key, text, data, next, e.inPos, e.offs, segments + 1, out + Output(e.plains))
  {
    var s := segs[0];
    next := pos + |SegmentLines(s)|;
    SegmentHeader(f, alg, key, text, pos, segs);
    e := Segment(alg, Session(CStr(key), s.iv), data, inPos, offs, s.end);
    RunGoesOn(f, alg, key, text, data, pos, inPos, offs, segments, out, Begin(Session(CStr(key), s.iv), s.end),
              next, e);
    assert Recordable(f, alg, segs[1..]);
  }

  /** Metadata made of well-formed IV/END pairs from `pos` to its end is read pair by pair: with a
      key of the right length, the loop decrypts exactly the recorded segments, as Trace says, and
      stops at the end of the metadata file in initCrypt with code 1. */
  lemma {:induction false} RunOfWellFormed(f: Format, alg: Algorithm, key: string, text: string, pos: nat,
                                           segs: seq<SegmentInfo>, data: seq<byte>, inPos: nat,
                                           offs: int, segments: nat, out: seq<byte>)
    requires f.Valid() && alg.Valid() && alg.blkLen <= IvBufferSize && KeyLengthOk(key, alg.keyLen)
    requires Recordable(f, alg, segs) && inPos <= |data|
    requires pos <= |text| && text[pos..] == MetaLines(segs)
    ensures var t := Trace(alg, CStr(key), data, segs, inPos, offs, out);
      RunFrom(f, alg, key, text, data, pos, inPos, offs, segments, out)
      == Run(InitFailed(1), segments + |segs|, |text|, t.0, t.1, t.2)
    decreases |segs|
  {
    if segs == [] {
      RunAtMetadataEnd(f, alg, key, text, data, pos, inPos, offs, segments, out);
    } else {
      var next, e := RunFirstSegment(f, alg, key, text, pos, segs, data, inPos, offs, segments, out);
      RunOfWellFormed(f, alg, key, text, next, segs[1..], data, e.inPos, e.offs,
                      segments + 1, out + Output(e.plains));
    }
  }

  // ---------------------------------------------------------------------------------------
  // decrypt(): the filetype check, then doDecrypt

  /** What decrypt() does once both files are open: None when the metadata does not start with
      the filetype record (nothing is decrypted); otherwise doDecrypt's run from the record after
      it, with the log read from its start and the offset from 0. */
  function DecryptSpec(f: Format, alg: Algorithm, key: string, text: string, data: seq<byte>,
                       out: seq<byte>): (r: Option<Run>)
    requires f.Valid() && alg.Valid()
    ensures r.Some? ==> r.value.offs == r.value.inPos && out <= r.value.out
    ensures r.None? <==> FiletypeStatus(f, NextRecord(f, text, 0).0) != 0
  {
    var (rec, p) := NextRecord(f, text, 0);
    if FiletypeStatus(f, rec) != 0 then None
    else Some(RunFrom(f, alg, key, text, data, p, 0, 0, 0, out))
  }

  /** decrypt(name, key) from tools/rscryutil.c:306-310, on the opened files: eiCheckFiletype,
      then doDecrypt, whose return value decrypt() ignores. */
  method DecryptFiles(f: Format, alg: Algorithm, key: string, eif: TextFile, logf: ByteFile,
                      out: OutFile) returns (ok: bool)
    requires f.Valid() && alg.Valid() && eif.Valid() && logf.Valid() && eif.pos == 0 && logf.pos == 0
    modifies eif, logf, out
    ensures var spec := DecryptSpec(f, alg, key, eif.text, logf.data, old(out.written));
      && ok == spec.Some?
      && (ok ==> eif.pos == spec.value.ePos && logf.pos == spec.value.inPos && out.written == spec.value.out)
      && (!ok ==> logf.pos == 0 && out.written == old(out.written))
  {
    var r := CheckFiletype(f, eif);
    if r != 0 {
      return false;
    }
    var _ := DoDecrypt(f, alg, key, eif, logf, out);
    ok := true;
  }

  /** A metadata file written as the FILETYPE line and then well-formed IV/END pairs decrypts the
      recorded segments in order from the start of the log, as Trace says, and stops at the end
      of the metadata file. */
  lemma {:induction false} WholeFileDecrypts(f: Format, alg: Algorithm, key: string, segs: seq<SegmentInfo>,
                          data: seq<byte>, out: seq<byte>)
    requires f.Valid() && alg.Valid() && alg.blkLen <= IvBufferSize && KeyLengthOk(key, alg.keyLen)
    requires Representable(f, "FILETYPE", f.cookie) && Recordable(f, alg, segs)
    ensures var text := Line("FILETYPE", f.cookie) + MetaLines(segs);
      var t := Trace(alg, CStr(key), data, segs, 0, 0, out);
      DecryptSpec(f, alg, key, text, data, out) == Some(Run(InitFailed(1), |segs|, |text|, t.0, t.1, t.2))
  {
    var header := Line("FILETYPE", f.cookie);
    var text := header + MetaLines(segs);
    FiletypeHeaderAccepted(f, MetaLines(segs));
    assert text[|header|..] == MetaLines(segs);
    RunOfWellFormed(f, alg, key, text, |header|, segs, data, 0, 0, 0, out);
  }
}
