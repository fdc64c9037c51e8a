/** decryptBlock: one segment of the ciphertext log is read in chunks of at most 64 KiB, rounded
    down to the cipher's block length, until the END offset of the segment is reached or the
    file ends. Each chunk is decrypted in place, stripped of zero bytes and written out. */
module Segments {
  import opened Common
  import opened Padding

  /** The block cipher in CBC mode, as far as the decrypt path sees it: its block and key lengths
      and a decryption that, for a key and IV, continues the chain after the ciphertext `fed` so
      far in this session and either fails or returns as many bytes as it is given. */
  datatype Algorithm = Algorithm(
    blkLen: nat,
    keyLen: nat,
    dec: (string, seq<byte>, seq<byte>, seq<byte>) -> Option<seq<byte>>)
  {
    ghost predicate Valid() {
      && blkLen > 0
      && forall key, iv, fed, c :: Decrypt(key, iv, fed, c).Some? ==> |Decrypt(key, iv, fed, c).value| == |c|
    }

    /** Decrypting chunk `c` under `key` and `iv`, after the bytes `fed` went through the same
        handle; None when the library reports an error. */
    function Decrypt(key: string, iv: seq<byte>, fed: seq<byte>, c: seq<byte>): Option<seq<byte>> {
      dec(key, iv, fed, c)
    }
  }

  /** The key and IV initCrypt installs in the cipher handle for one segment. */
  datatype Session = Session(key: string, iv: seq<byte>)

  /** sizeof(buf) in decryptBlock. */
  const ChunkCapacity: nat := 65536

  /** size_t arithmetic wraps modulo 2^64. */
  const SizeModulus: int := 0x1_0000_0000_0000_0000

  /** The ciphertext log: its bytes and the read position of the FILE. */
  class ByteFile {
    const data: seq<byte>
    var pos: nat

    ghost predicate Valid()
      reads this
    {
      pos <= |data|
    }

    constructor (data: seq<byte>)
      ensures this.data == data && pos == 0 && Valid()
    {
      this.data := data;
      pos := 0;
    }
  }

  /** The plaintext output: everything written to it so far. */
  class OutFile {
    var written: seq<byte>

    constructor ()
      ensures written == []
    {
      written := [];
    }
  }

  // ---------------------------------------------------------------------------------------
  // Block alignment

  lemma {:induction false} NegFactor(k: int, b: int)
    requires b > 0 && k * b < 0
    ensures k < 0
  {
  }

  lemma {:induction false} SmallFactor(k: int, b: int)
    requires b > 0 && k * b < b
    ensures k < 1
  {
    assert (k - 1) * b == k * b - b;
    NegFactor(k - 1, b);
  }

  /** The remainder is unique: `q * b + r` with `0 <= r < b` leaves remainder `r`. */
  lemma {:induction false} DivModUnique(y: int, b: int, q: int, r: int)
    requires b > 0 && 0 <= r < b && y == q * b + r
    ensures y % b == r
  {
    var d, s := y / b, y % b;
    assert y == d * b + s;
    assert (q - d) * b == s - r;
    assert (d - q) * b == r - s;
    SmallFactor(q - d, b);
    SmallFactor(d - q, b);
  }

  /** C's `%` on unsigned operands, by repeated subtraction. */
  function Rem(t: nat, b: nat): (r: nat)
    requires b > 0
    ensures r < b && r <= t
    decreases t
  {
    if t < b then t else Rem(t - b, b)
  }

  /** Repeated subtraction computes the remainder of Euclidean division, which for unsigned
      operands is C's `%`. */
  lemma {:induction false} RemIsMod(t: nat, b: nat)
    requires b > 0
    ensures Rem(t, b) == t % b
    decreases t
  {
    if t < b {
      DivModUnique(t, b, 0, t);
    } else {
      RemIsMod(t - b, b);
      DivModUnique(t - b, b, (t - b) / b, Rem(t, b));
      DivModUnique(t, b, (t - b) / b + 1, Rem(t, b));
    }
  }

  /** The difference of two whole numbers of blocks is a whole number of blocks. */
  lemma {:induction false} SubAligned(x: nat, y: nat, b: nat)
    requires b > 0 && y <= x && Rem(x, b) == 0 && Rem(y, b) == 0
    ensures Rem(x - y, b) == 0
    decreases y
  {
    if y > 0 {
      assert y >= b;
      SubAligned(x - b, y - b, b);
    }
  }

  /** Dropping the remainder leaves a whole number of blocks. */
  lemma {:induction false} DropRemAligned(t: nat, b: nat)
    requires b > 0
    ensures Rem(t - Rem(t, b), b) == 0
    decreases t
  {
    if t >= b {
      DropRemAligned(t - b, b);
      var x := t - b - Rem(t - b, b);
      assert t - Rem(t, b) == x + b;
      assert Rem(x + b, b) == Rem(x, b);
    }
  }

  /** toRead: the smaller of the buffer size and what is left of the segment, less its remainder
      by the block length: within one block of the smaller of the two. */
  function ReadSize(left: nat, blkLen: nat): (n: nat)
    requires blkLen > 0
    ensures n <= left && n <= ChunkCapacity
    ensures Min(left, ChunkCapacity) - n < blkLen
  {
    var t := Min(left, ChunkCapacity);
    t - Rem(t, blkLen)
  }

  /** toRead is always a whole number of blocks. */
  lemma {:induction false} ReadSizeAligned(left: nat, blkLen: nat)
    requires blkLen > 0
    ensures Rem(ReadSize(left, blkLen), blkLen) == 0
  {
    DropRemAligned(Min(left, ChunkCapacity), blkLen);
  }

  /** toRead is computed as in C: `toRead - toRead % blkLength`. */
  lemma {:induction false} ReadSizeIsC(left: nat, blkLen: nat)
    requires blkLen > 0
    ensures var t := Min(left, ChunkCapacity); ReadSize(left, blkLen) == t - t % blkLen
  {
    RemIsMod(Min(left, ChunkCapacity), blkLen);
  }

  /** Where the segment loop stops: the read position in the log, the running offset, the
      plaintext written, and whether it returned early on a failed decryption. */
  datatype SegmentEnd = SegmentEnd(inPos: nat, offs: int, plains: seq<seq<byte>>, failed: bool)

  /** The loop of decryptBlock from a state with `left` bytes still due in the segment, the read
      position `inPos`, the running offset `offs`, the ciphertext `fed` to this session so far
      and the decrypted chunks `plains` so far. The offset advances by the bytes read, before padding is
      removed, and never by more than was due. */
  function SegmentLoop(alg: Algorithm, sess: Session, data: seq<byte>, left: nat, inPos: nat,
                       offs: int, fed: seq<byte>, plains: seq<seq<byte>>): (e: SegmentEnd)
    requires alg.Valid() && inPos <= |data|
    ensures inPos <= e.inPos <= |data| && e.inPos - inPos <= left
    ensures e.offs == offs + (e.inPos - inPos)
    decreases |data| - inPos
  {
    var n := Min(ReadSize(left, alg.blkLen), |data| - inPos);
    if n == 0 then SegmentEnd(inPos, offs, plains, false)
    else
      var chunk := data[inPos..inPos + n];
      match alg.Decrypt(sess.key, sess.iv, fed, chunk)
      case None => SegmentEnd(inPos + n, offs + n, plains, true)
      case Some(p) =>
        SegmentLoop(alg, sess, data, left - n, inPos + n, offs + n, fed + chunk, plains + [p])
  }

  /** The decrypted chunks, one after the other. */
  function Concat(plains: seq<seq<byte>>): (s: seq<byte>)
  {
    if plains == [] then [] else Concat(plains[..|plains| - 1]) + plains[|plains| - 1]
  }

  /** What decryptBlock writes for a run of decrypted chunks: each chunk stripped of its zero
      bytes. The result holds no zero byte. */
  function Output(plains: seq<seq<byte>>): (out: seq<byte>)
    ensures 0 !in out
  {
    if plains == [] then []
    else
      var last := plains[|plains| - 1];
      Output(plains[..|plains| - 1]) + StripPadding(last)
  }

  /** The output is the decrypted stream with every zero byte removed, wherever the chunk
      boundaries fall; so it is never longer than the decrypted stream. */
  lemma {:induction false} OutputIsRemoveZeros(plains: seq<seq<byte>>)
    ensures Output(plains) == RemoveZeros(Concat(plains))
    ensures |Output(plains)| <= |Concat(plains)|
    decreases |plains|
  {
    if plains != [] {
      var init, last := plains[..|plains| - 1], plains[|plains| - 1];
      OutputIsRemoveZeros(init);
      StripIsRemoveZeros(last);
      RemoveZerosAppend(Concat(init), last);
      RemoveZerosBounds(Concat(plains));
    }
  }

  /** leftTillBlkEnd = blkEnd - *pCurrOffs, as a size_t. */
  function LeftTillEnd(blkEnd: int, offs: int): (left: nat)
    ensures left < SizeModulus
    ensures 0 <= blkEnd - offs < SizeModulus ==> left == blkEnd - offs
    ensures -SizeModulus <= blkEnd - offs < 0 ==> left == blkEnd - offs + SizeModulus
  {
    (blkEnd - offs) % SizeModulus
  }

  /** `leftTillBlkEnd -= nRead, *pCurrOffs += nRead` keeps leftTillBlkEnd equal to
      blkEnd - *pCurrOffs as a size_t: reading `n` of the bytes left leaves LeftTillEnd of the new
      offset. */
  lemma {:induction false} LeftTracksOffset(blkEnd: int, offs: int, n: nat)
    requires n <= LeftTillEnd(blkEnd, offs)
    ensures LeftTillEnd(blkEnd, offs + n) == LeftTillEnd(blkEnd, offs) - n
  {
    var left := LeftTillEnd(blkEnd, offs);
    var q := (blkEnd - offs) / SizeModulus;
    assert blkEnd - offs == q * SizeModulus + left;
    DivModUnique(blkEnd - (offs + n), SizeModulus, q, left - n);
  }

  /** decryptBlock on a fresh session: the segment ending at offset `blkEnd`. It reads no more
      than leftTillBlkEnd bytes and never past the end of the log, and advances the offset by
      exactly the bytes it reads. */
  function Segment(alg: Algorithm, sess: Session, data: seq<byte>, inPos: nat, offs: int,
                   blkEnd: int): (e: SegmentEnd)
    requires alg.Valid() && inPos <= |data|
    ensures inPos <= e.inPos <= |data| && e.inPos - inPos <= LeftTillEnd(blkEnd, offs)
    ensures e.offs - offs == e.inPos - inPos
  {
    SegmentLoop(alg, sess, data, LeftTillEnd(blkEnd, offs), inPos, offs, [], [])
  }

  // ---------------------------------------------------------------------------------------
  // Properties of the segment loop

  /** A segment that starts at or before its END offset never carries the offset past it. */
  lemma {:induction false} SegmentStaysWithinEnd(alg: Algorithm, sess: Session, data: seq<byte>, inPos: nat,
                              offs: int, blkEnd: int)
    requires alg.Valid() && inPos <= |data| && offs <= blkEnd < offs + SizeModulus
    ensures offs <= Segment(alg, sess, data, inPos, offs, blkEnd).offs <= blkEnd
  {
  }

  /** Nothing is read, decrypted or written when the offset is already at END or the log is at
      its end: the first read returns 0 bytes. */
  lemma {:induction false} SegmentNothingToRead(alg: Algorithm, sess: Session, data: seq<byte>, inPos: nat,
                             offs: int, blkEnd: int)
    requires alg.Valid() && inPos <= |data| && (offs == blkEnd || inPos == |data|)
    ensures Segment(alg, sess, data, inPos, offs, blkEnd) == SegmentEnd(inPos, offs, [], false)
  {
  }

  /** With a whole number of blocks due and at least that much ciphertext left, the loop ending
      in `e` either stops on a failed decryption or reads exactly up to END. */
  lemma {:induction false} LoopReachesEnd(alg: Algorithm, sess: Session, data: seq<byte>,
                                          left: nat, inPos: nat, offs: int, fed: seq<byte>,
                                          plains: seq<seq<byte>>, e: SegmentEnd)
    requires alg.Valid() && alg.blkLen <= ChunkCapacity
    requires Rem(left, alg.blkLen) == 0 && inPos + left <= |data|
    requires e == SegmentLoop(alg, sess, data, left, inPos, offs, fed, plains)
    ensures e.failed || e.inPos == inPos + left
    decreases left
  {
    var n, r, left', inPos', offs', fed', plains' := LoopStep(alg, sess, data, left, inPos, offs, fed, plains);
    if left > 0 {
      assert n == ReadSize(left, alg.blkLen) && left >= alg.blkLen;
      if r.Some? {
        ReadSizeAligned(left, alg.blkLen);
        SubAligned(left, n, alg.blkLen);
        LoopReachesEnd(alg, sess, data, left', inPos', offs', fed', plains', e);
      }
    }
  }

  /** A segment whose END lies a whole number of blocks ahead, within the ciphertext, ends with the
      offset at END unless a decryption fails. */
  lemma {:induction false} SegmentReachesEnd(alg: Algorithm, sess: Session, data: seq<byte>, inPos: nat,
                          offs: int, blkEnd: int)
    requires alg.Valid() && alg.blkLen <= ChunkCapacity && inPos <= |data|
    requires offs <= blkEnd < offs + SizeModulus && Rem(blkEnd - offs, alg.blkLen) == 0
    requires inPos + (blkEnd - offs) <= |data|
    ensures var e := Segment(alg, sess, data, inPos, offs, blkEnd);
      e.failed || (e.offs == blkEnd && e.inPos == inPos + (blkEnd - offs))
  {
    var left := LeftTillEnd(blkEnd, offs);
    assert left == blkEnd - offs;
    LoopReachesEnd(alg, sess, data, left, inPos, offs, [], [], Segment(alg, sess, data, inPos, offs, blkEnd));
  }

  /** With far more due than the log holds, the loop ending in `e` either stops on a failed
      decryption or reads the log to its end. */
  lemma {:induction false} LoopDrains(alg: Algorithm, sess: Session, data: seq<byte>, left: nat,
                                      inPos: nat, offs: int, fed: seq<byte>, plains: seq<seq<byte>>,
                                      e: SegmentEnd)
    requires alg.Valid() && alg.blkLen <= ChunkCapacity && inPos <= |data|
    requires |data| - inPos + ChunkCapacity <= left
    requires e == SegmentLoop(alg, sess, data, left, inPos, offs, fed, plains)
    ensures e.failed || e.inPos == |data|
    decreases |data| - inPos
  {
    var n, r, left', inPos', offs', fed', plains' := LoopStep(alg, sess, data, left, inPos, offs, fed, plains);
    assert ReadSize(left, alg.blkLen) > 0;
    if n > 0 && r.Some? {
      LoopDrains(alg, sess, data, left', inPos', offs', fed', plains', e);
    }
  }

  /** An END offset below the running offset is not caught: leftTillBlkEnd wraps to nearly 2^64,
      and the segment reads on to the end of the log (or to a failed decryption), carrying the
      offset past END. */
  lemma {:induction false} SegmentWrapsPastEnd(alg: Algorithm, sess: Session, data: seq<byte>, inPos: nat,
                            offs: int, blkEnd: int)
    requires alg.Valid() && alg.blkLen <= ChunkCapacity && inPos <= |data|
    requires blkEnd < offs && offs - blkEnd + (|data| - inPos) + ChunkCapacity <= SizeModulus
    ensures var e := Segment(alg, sess, data, inPos, offs, blkEnd);
      (e.failed || e.inPos == |data|) && (e.inPos > inPos ==> e.offs > blkEnd)
  {
    LoopDrains(alg, sess, data, LeftTillEnd(blkEnd, offs), inPos, offs, [], [],
               Segment(alg, sess, data, inPos, offs, blkEnd));
  }

  /** One turn of the loop, told by how many bytes `n` it reads and what their decryption `r`
      gives: it stops on an empty read, returns on a failed decryption, and otherwise goes on
      with the rest of the segment. */
  lemma {:induction false} LoopStep(alg: Algorithm, sess: Session, data: seq<byte>, left: nat, inPos: nat,
                 offs: int, fed: seq<byte>, plains: seq<seq<byte>>)
    returns (n: nat, r: Option<seq<byte>>,
             left': nat, inPos': nat, offs': int, fed': seq<byte>, plains': seq<seq<byte>>)
    requires alg.Valid() && inPos <= |data|
    ensures n == Min(ReadSize(left, alg.blkLen), |data| - inPos)
    ensures n <= left && inPos + n <= |data|
    ensures left' == left - n && inPos' == inPos + n && offs' == offs + n
    ensures fed' == fed + data[inPos..inPos + n]
    ensures n > 0 ==> r == alg.Decrypt(sess.key, sess.iv, fed, data[inPos..inPos + n])
    ensures n == 0 ==> SegmentLoop(alg, sess, data, left, inPos, offs, fed, plains)
                       == SegmentEnd(inPos, offs, plains, false)
    ensures n > 0 && r.None? ==> SegmentLoop(alg, sess, data, left, inPos, offs, fed, plains)
                                 == SegmentEnd(inPos', offs', plains, true)
    ensures n > 0 && r.Some? ==>
      && |r.value| == n
      && plains' == plains + [r.value]
      && SegmentLoop(alg, sess, data, left, inPos, offs, fed, plains)
         == SegmentLoop(alg, sess, data, left', inPos', offs', fed', plains')
  {
    n := Min(ReadSize(left, alg.blkLen), |data| - inPos);
    left', inPos', offs', fed' := left - n, inPos + n, offs + n, fed + data[inPos..inPos + n];
    if n == 0 {
      r, plains' := None, plains;
      LoopStops(alg, sess, data, left, inPos, offs, fed, plains);
    } else {
      r := alg.Decrypt(sess.key, sess.iv, fed, data[inPos..inPos + n]);
      if r.Some? {
        plains' := plains + [r.value];
        LoopGoesOn(alg, sess, data, left, inPos, offs, fed, plains, n, r.value, left', inPos', offs');
      } else {
        plains' := plains;
        LoopFails(alg, sess, data, left, inPos, offs, fed, plains, n);
      }
    }
  }


  /** One turn of the loop: nothing is read and the loop stops. */
  lemma {:induction false} LoopStops(alg: Algorithm, sess: Session, data: seq<byte>, left: nat, inPos: nat,
                  offs: int, fed: seq<byte>, plains: seq<seq<byte>>)
    requires alg.Valid() && inPos <= |data| && Min(ReadSize(left, alg.blkLen), |data| - inPos) == 0
    ensures SegmentLoop(alg, sess, data, left, inPos, offs, fed, plains) == SegmentEnd(inPos, offs, plains, false)
  {
  }

  /** One turn of the loop: `n` bytes are read, their decryption fails and decryptBlock returns. */
  lemma {:induction false} LoopFails(alg: Algorithm, sess: Session, data: seq<byte>, left: nat, inPos: nat,
                  offs: int, fed: seq<byte>, plains: seq<seq<byte>>, n: nat)
    requires alg.Valid() && inPos <= |data| && n == Min(ReadSize(left, alg.blkLen), |data| - inPos) > 0
    requires alg.Decrypt(sess.key, sess.iv, fed, data[inPos..inPos + n]).None?
    ensures SegmentLoop(alg, sess, data, left, inPos, offs, fed, plains) == SegmentEnd(inPos + n, offs + n, plains, true)
  {
  }

  /** One turn of the loop, stated for the next state given by name. */
  lemma {:induction false} LoopGoesOn(alg: Algorithm, sess: Session, data: seq<byte>, left: nat, inPos: nat,
                   offs: int, fed: seq<byte>, plains: seq<seq<byte>>, n: nat, p: seq<byte>,
                   left': nat, inPos': nat, offs': int)
    requires alg.Valid() && inPos <= |data| && n == Min(ReadSize(left, alg.blkLen), |data| - inPos) > 0
    requires alg.Decrypt(sess.key, sess.iv, fed, data[inPos..inPos + n]) == Some(p)
    requires left' == left - n && inPos' == inPos + n && offs' == offs + n
    ensures SegmentLoop(alg, sess, data, left, inPos, offs, fed, plains)
         == SegmentLoop(alg, sess, data, left', inPos', offs', fed + data[inPos..inPos + n], plains + [p])
  {
    var chunk := data[inPos..inPos + n];
    var cur := SegmentLoop(alg, sess, data, left, inPos, offs, fed, plains);
    assert cur == SegmentLoop(alg, sess, data, left - n, inPos + n, offs + n, fed + chunk, plains + [p]);
  }

  /** One more decrypted chunk adds its non-zero bytes to those of the chunks before it. */
  lemma {:induction false} ConcatSnoc(plains: seq<seq<byte>>, p: seq<byte>)
    ensures RemoveZeros(Concat(plains + [p])) == RemoveZeros(Concat(plains)) + RemoveZeros(p)
  {
    assert (plains + [p])[..|plains|] == plains;
    RemoveZerosAppend(Concat(plains), p);
  }

  /** Writing one more stripped chunk after the output so far keeps the output equal to what
      was there before plus the non-zero bytes of all chunks decrypted. */
  lemma {:induction false} OutputGrows(written: seq<byte>, plains: seq<seq<byte>>, p: seq<byte>)
    ensures written + RemoveZeros(Concat(plains)) + RemoveZeros(p) == written + RemoveZeros(Concat(plains + [p]))
  {
    ConcatSnoc(plains, p);
    var a, b := RemoveZeros(Concat(plains)), RemoveZeros(p);
    assert (written + a) + b == written + (a + b);
  }

  /** The ciphertext consumed is at least as long as the plaintext chunks it decrypted to. */
  lemma {:induction false} LoopPlainLength(alg: Algorithm, sess: Session, data: seq<byte>, left: nat,
                                           inPos: nat, offs: int, fed: seq<byte>, plains: seq<seq<byte>>,
                                           e: SegmentEnd)
    requires alg.Valid() && inPos <= |data|
    requires e == SegmentLoop(alg, sess, data, left, inPos, offs, fed, plains)
    ensures |Concat(e.plains)| - |Concat(plains)| <= e.inPos - inPos
    decreases |data| - inPos
  {
    var n, r, left', inPos', offs', fed', plains' := LoopStep(alg, sess, data, left, inPos, offs, fed, plains);
    if n > 0 && r.Some? {
      assert plains'[..|plains|] == plains;
      assert Concat(plains') == Concat(plains) + r.value;
      LoopPlainLength(alg, sess, data, left', inPos', offs', fed', plains', e);
    }
  }

  // ---------------------------------------------------------------------------------------
  // The imperative decryptBlock

  /** fread(buf, 1, toRead, fpin) on a regular file: as many bytes as asked for, or as remain. */
  method Fread(fpin: ByteFile, buf: array<byte>, toRead: nat) returns (n: nat)
    requires fpin.Valid() && toRead <= buf.Length
    modifies fpin, buf
    ensures fpin.Valid()
    ensures n == Min(toRead, |fpin.data| - old(fpin.pos)) && fpin.pos == old(fpin.pos) + n
    ensures buf[..n] == fpin.data[old(fpin.pos)..fpin.pos] && buf[n..] == old(buf[n..])
  {
    n := Min(toRead, |fpin.data| - fpin.pos);
    forall i | 0 <= i < n {
      buf[i] := fpin.data[fpin.pos + i];
    }
    fpin.pos := fpin.pos + n;
  }

  /** gcry_cipher_decrypt(hd, buf, n, NULL, 0): decrypts the first `n` bytes of `buf` in place. */
  method DecryptInPlace(alg: Algorithm, sess: Session, fed: seq<byte>, buf: array<byte>, n: nat)
    returns (ok: bool)
    requires alg.Valid() && n <= buf.Length
    modifies buf
    ensures var res := alg.Decrypt(sess.key, sess.iv, fed, old(buf[..n]));
      ok == res.Some? && (ok ==> buf[..n] == res.value) && buf[n..] == old(buf[n..])
    ensures !ok ==> buf[..] == old(buf[..])
  {
    var res := alg.Decrypt(sess.key, sess.iv, fed, buf[..n]);
    if res.None? {
      return false;
    }
    var p := res.value;
    forall i | 0 <= i < n {
      buf[i] := p[i];
    }
    ok := true;
  }

  /** fwrite(buf, 1, n, fpout), taken to write everything. */
  method Fwrite(fpout: OutFile, buf: array<byte>, n: nat)
    requires n <= buf.Length
    modifies fpout
    ensures fpout.written == old(fpout.written) + buf[..n]
  {
    fpout.written := fpout.written + buf[..n];
  }

  /** The body of decryptBlock's loop after a non-empty read: decrypts the `n` bytes read,
      strips their padding and writes them out. Nothing is written when decryption fails. */
  method DecryptChunk(alg: Algorithm, sess: Session, fed: seq<byte>, buf: array<byte>, n: nat,
                      ghost res: Option<seq<byte>>, fpout: OutFile) returns (ok: bool)
    requires alg.Valid() && n <= buf.Length && res == alg.Decrypt(sess.key, sess.iv, fed, buf[..n])
    modifies buf, fpout
    ensures ok == res.Some?
    ensures ok ==> fpout.written == old(fpout.written) + RemoveZeros(res.value)
    ensures !ok ==> fpout.written == old(fpout.written)
  {
    ok := DecryptInPlace(alg, sess, fed, buf, n);
    if ok {
      var newLen := RemovePadding(buf, n);
      Fwrite(fpout, buf, newLen);
      StripIsRemoveZeros(res.value);
    }
  }

  /** One pass of decryptBlock's loop: reads up to `toRead` bytes and, when it read some,
      decrypts them in place and writes them out without their zero bytes. `r` is what the
      cipher makes of the bytes that will be read. */
  method Turn(alg: Algorithm, sess: Session, fpin: ByteFile, fpout: OutFile, buf: array<byte>,
              toRead: nat, fed: seq<byte>, ghost n: nat, ghost r: Option<seq<byte>>)
    returns (nRead: nat, chunk: seq<byte>, ok: bool)
    requires alg.Valid() && fpin.Valid() && toRead <= buf.Length
    requires n == Min(toRead, |fpin.data| - fpin.pos)
    requires n > 0 ==> r == alg.Decrypt(sess.key, sess.iv, fed, fpin.data[fpin.pos..fpin.pos + n])
    modifies fpin, fpout, buf
    ensures fpin.Valid()
    ensures nRead == n && fpin.pos == old(fpin.pos) + n
    ensures chunk == fpin.data[old(fpin.pos)..old(fpin.pos) + n]
    ensures n > 0 ==> ok == r.Some?
    ensures n > 0 && ok ==> fpout.written == old(fpout.written) + RemoveZeros(r.value)
    ensures n == 0 || !ok ==> fpout.written == old(fpout.written)
  {
    nRead := Fread(fpin, buf, toRead);
    chunk := buf[..nRead];
    if nRead == 0 {
      return nRead, chunk, false;
    }
    ok := DecryptChunk(alg, sess, fed, buf, nRead, r, fpout);
  }

  /** decryptBlock(fpin, fpout, blkEnd, pCurrOffs): returns the new *pCurrOffs. The log position,
      the offset and the output are those of the Segment function. */
  method DecryptBlock(alg: Algorithm, sess: Session, fpin: ByteFile, fpout: OutFile,
                      blkEnd: int, currOffs: int) returns (newOffs: int)
    requires alg.Valid() && fpin.Valid()
    modifies fpin, fpout
    ensures fpin.Valid()
    ensures var e := Segment(alg, sess, fpin.data, old(fpin.pos), currOffs, blkEnd);
      fpin.pos == e.inPos && newOffs == e.offs && fpout.written == old(fpout.written) + Output(e.plains)
  {
    var buf := new byte[ChunkCapacity];
    var left: nat := LeftTillEnd(blkEnd, currOffs);
    var fed: seq<byte> := [];
    ghost var plains: seq<seq<byte>> := [];
    ghost var goal := Segment(alg, sess, fpin.data, fpin.pos, currOffs, blkEnd);
    newOffs := currOffs;
    while true
      invariant fpin.Valid()
      invariant fpout.written == old(fpout.written) + RemoveZeros(Concat(plains))
      invariant goal == SegmentLoop(alg, sess, fpin.data, left, fpin.pos, newOffs, fed, plains)
      decreases |fpin.data| - fpin.pos
    {
      ghost var pos := fpin.pos;
      ghost var n, r, left', pos', offs', fed', plains' :=
        LoopStep(alg, sess, fpin.data, left, pos, newOffs, fed, plains);
      var toRead := ReadSize(left, alg.blkLen);
      var nRead, chunk, ok := Turn(alg, sess, fpin, fpout, buf, toRead, fed, n, r);
      if nRead == 0 {
        OutputIsRemoveZeros(plains);
        break;
      }
      left, newOffs := left - nRead, newOffs + nRead;
      if !ok {
        OutputIsRemoveZeros(plains);
        return;
      }
      fed := fed + chunk;
      OutputGrows(old(fpout.written), plains, r.value);
      plains := plains';
      assert left == left' && fpin.pos == pos' && newOffs == offs' && fed == fed';
    }
  }
}
