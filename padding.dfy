/** removePadding: after each decrypted chunk, every zero byte from the first one onward is
    dropped, compacting the chunk in place. This is not the PKCS#7 unpadding of section 6.3 of
    RFC 5652: the zero bytes are taken to be padding wherever they occur. */
module Padding {
  import opened Common

  /** memchr(buf, 0x00, len): the index of the first zero byte, if any. */
  function FirstZero(s: seq<byte>): (r: Option<nat>)
    ensures r.Some? ==> r.value < |s| && s[r.value] == 0 && 0 !in s[..r.value]
    ensures r.None? ==> 0 !in s
  {
    if s == [] then None
    else if s[0] == 0 then Some(0)
    else
      match FirstZero(s[1..])
      case None => None
      case Some(k) =>
        assert s[..k + 1] == [s[0]] + s[1..][..k];
        Some(k + 1)
  }

  /** The bytes of `s` that are not zero, in order: the reference definition of what the
      compaction keeps. */
  function RemoveZeros(s: seq<byte>): seq<byte>
  {
    if s == [] then []
    else
      var init := RemoveZeros(s[..|s| - 1]);
      if s[|s| - 1] == 0 then init else init + [s[|s| - 1]]
  }

  /** What is kept holds no zero byte and is no longer than the input. */
  lemma {:induction false} RemoveZerosBounds(s: seq<byte>)
    ensures 0 !in RemoveZeros(s) && |RemoveZeros(s)| <= |s|
    decreases |s|
  {
    if s != [] {
      RemoveZerosBounds(s[..|s| - 1]);
    }
  }

  /** What removePadding leaves in the first `*plen` bytes: the input when it holds no zero;
      otherwise the bytes before the first zero, then the non-zero bytes after it. The result
      holds no zero byte and is no longer than the input. */
  function StripPadding(s: seq<byte>): (r: seq<byte>)
    ensures 0 !in r && |r| <= |s|
  {
    match FirstZero(s)
    case None => s
    case Some(z) =>
      RemoveZerosBounds(s[z..]);
      s[..z] + RemoveZeros(s[z..])
  }

  lemma {:induction false} RemoveZerosAppend(a: seq<byte>, b: seq<byte>)
    ensures RemoveZeros(a + b) == RemoveZeros(a) + RemoveZeros(b)
    decreases |b|
  {
    if b != [] {
      var b' := b[..|b| - 1];
      assert (a + b)[..|a + b| - 1] == a + b';
      RemoveZerosAppend(a, b');
    } else {
      assert a + b == a;
    }
  }

  lemma {:induction false} RemoveZerosOfZeroFree(s: seq<byte>)
    requires 0 !in s
    ensures RemoveZeros(s) == s
    decreases |s|
  {
    if s != [] {
      assert 0 !in s[..|s| - 1];
      RemoveZerosOfZeroFree(s[..|s| - 1]);
      assert s == s[..|s| - 1] + [s[|s| - 1]];
    }
  }

  /** The compaction from the first zero onward removes exactly all the zero bytes. */
  lemma {:induction false} StripIsRemoveZeros(s: seq<byte>)
    ensures StripPadding(s) == RemoveZeros(s)
  {
    match FirstZero(s)
    case None =>
      RemoveZerosOfZeroFree(s);
    case Some(z) =>
      assert s == s[..z] + s[z..];
      RemoveZerosAppend(s[..z], s[z..]);
      RemoveZerosOfZeroFree(s[..z]);
  }

  /** Stripping twice is stripping once. */
  lemma {:induction false} StripIdempotent(s: seq<byte>)
    ensures StripPadding(StripPadding(s)) == StripPadding(s)
  {
  }

  /** Without a zero byte the chunk is left as it is; otherwise the bytes before the first zero
      stay where they were. */
  lemma {:induction false} StripKeepsPrefix(s: seq<byte>)
    ensures FirstZero(s).None? ==> StripPadding(s) == s
    ensures FirstZero(s).Some? ==>
      var z := FirstZero(s).value; z <= |StripPadding(s)| && StripPadding(s)[..z] == s[..z]
  {
  }

  /** Zero bytes in the middle of a chunk are dropped as well as those at its end. */
  lemma {:induction false} StripExample()
    ensures StripPadding([0x41, 0x42, 0, 0x43, 0, 0]) == [0x41, 0x42, 0x43]
  {
    var s: seq<byte> := [0x41, 0x42, 0, 0x43, 0, 0];
    var t := s[2..];
    assert s[1..][1..] == t && t == [0, 0x43, 0, 0];
    assert FirstZero(t) == Some(0);
    assert FirstZero(s) == Some(2);
    var t1: seq<byte>, t2: seq<byte>, t3: seq<byte> := [0], [0, 0x43], [0, 0x43, 0];
    assert t1[..0] == [] && t2[..1] == t1 && t3[..2] == t2 && t[..3] == t3;
    assert RemoveZeros(t1) == [];
    assert RemoveZeros(t2) == [0x43];
    assert RemoveZeros(t3) == [0x43];
    assert RemoveZeros(t) == [0x43];
  }

  /** The compaction loop of removePadding: from `start` on, every non-zero byte of the first
      `len` is moved down over the zero bytes before it. Returns where the kept bytes end; the
      bytes from there on are those the buffer held before. */
  method Compact(buf: array<byte>, start: nat, len: nat) returns (dst: nat)
    requires start <= len <= buf.Length
    modifies buf
    ensures start <= dst <= len
    ensures buf[..dst] == old(buf[..start]) + RemoveZeros(old(buf[start..len]))
    ensures forall k | dst <= k < buf.Length :: buf[k] == old(buf[k])
  {
    ghost var orig := buf[..];
    ghost var kept: seq<byte> := [];
    var src := start;
    dst := start;
    while src < len
      invariant start <= dst <= src <= len
      invariant kept == RemoveZeros(orig[start..src]) && |kept| == dst - start
      invariant forall k | start <= k < dst :: buf[k] == kept[k - start]
      invariant forall k | 0 <= k < start || dst <= k < buf.Length :: buf[k] == orig[k]
    {
      assert orig[start..src + 1][..src - start] == orig[start..src];
      if buf[src] != 0 {
        buf[dst] := buf[src];
        kept := kept + [orig[src]];
        dst := dst + 1;
      }
      src := src + 1;
    }
    assert buf[..dst] == orig[..start] + kept;
  }

  /** removePadding(buf, &len): compacts the non-zero bytes from the first zero onward towards
      it, and returns the new length. Bytes from the new length on are not written. */
  method RemovePadding(buf: array<byte>, len: nat) returns (newLen: nat)
    requires len <= buf.Length
    modifies buf
    ensures newLen <= len
    ensures buf[..newLen] == StripPadding(old(buf[..len]))
    ensures buf[newLen..] == old(buf[newLen..])
  {
    ghost var s := buf[..len];
    var z := FirstZero(buf[..len]);
    if z.None? {
      return len;
    }
    assert old(buf[..z.value]) == s[..z.value] && old(buf[z.value..len]) == s[z.value..];
    newLen := Compact(buf, z.value, len);
    assert buf[newLen..] == old(buf[newLen..]);
  }
}
