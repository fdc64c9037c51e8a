/** The checks made on single encryption-info records: the FILETYPE cookie (eiCheckFiletype),
    the hex IV (eiGetIV), the END offset read with atoll (eiGetEND), and the key-length test of
    initCrypt. Each is a function of the parsed record, and a method that reads the record with
    GetRecord and is proved to compute that function. */
module Validators {
  import opened Common
  import opened Records

  // ---------------------------------------------------------------------------------------
  // eiCheckFiletype

  /** The status eiCheckFiletype returns for the first record of the metadata file. */
  function FiletypeStatus(f: Format, rec: RecordResult): (r: int)
    ensures r == 0 <==> rec == Record("FILETYPE", f.cookie)
    ensures !rec.Record? ==> r == rec.Code()
    ensures rec.Record? ==> r == 0 || r == 1
  {
    match rec
    case Record(tag, value) => if tag != "FILETYPE" || value != f.cookie then 1 else 0
    case _ => rec.Code()
  }

  /** eiCheckFiletype: reads one record and compares its tag and value as C strings. */
  method CheckFiletype(f: Format, eif: TextFile) returns (r: int)
    requires f.Valid() && eif.Valid()
    modifies eif
    ensures eif.Valid()
    ensures r == FiletypeStatus(f, NextRecord(f, eif.text, old(eif.pos)).0)
    ensures eif.pos == NextRecord(f, eif.text, old(eif.pos)).1
  {
    var rectype := new char[f.maxRectypeLen + 1];
    var value := new char[f.maxValueLen + 1];
    r := GetRecord(f, eif, rectype, value);
    if r != 0 {
      return;
    }
    ghost var rec := NextRecord(f, eif.text, old(eif.pos)).0;
    HeldCString(rectype, rec.tag);
    HeldCString(value, rec.value);
    if CStr(rectype[..]) != "FILETYPE" || CStr(value[..]) != f.cookie {
      r := 1;
      return;
    }
    r := 0;
  }

  /** A metadata file that starts with the line `FILETYPE:<cookie>\n` passes the check, and the
      reader is left at the start of the next line. */
  lemma {:induction false} FiletypeHeaderAccepted(f: Format, rest: string)
    requires f.Valid() && Representable(f, "FILETYPE", f.cookie)
    ensures var res := NextRecord(f, Line("FILETYPE", f.cookie) + rest, 0);
      FiletypeStatus(f, res.0) == 0 && res.1 == |Line("FILETYPE", f.cookie)|
  {
    var line := Line("FILETYPE", f.cookie);
    assert (line + rest)[0..|line|] == line;
    LineAtIsSlice(line + rest, 0, line);
    NextRecordOfLine(f, line + rest, 0, "FILETYPE", f.cookie);
  }

  /** A first line `text[..e]` that parses as the filetype record starts with "FILETYPE", then
      the delimiter (when the tag bound leaves room for one), then the cookie. */
  lemma {:induction false} FiletypeLineShape(f: Format, text: string, e: nat)
    requires f.Valid() && e <= |text| && e < f.BufSize() && FiletypeStatus(f, ParseRecord(f, text[..e])) == 0
    ensures |text| >= 8 && text[..8] == "FILETYPE"
    ensures f.maxRectypeLen > 8 ==> text[8] == ':'
    ensures f.cookie != [] ==> 9 + |f.cookie| <= |text| && text[9..9 + |f.cookie|] == f.cookie
  {
    var chunk := text[..e];
    RecordFields(f, chunk);
    assert chunk[..8] == text[..8];
    if f.cookie != [] {
      assert chunk[9..9 + |f.cookie|] == text[9..9 + |f.cookie|];
    }
  }

  /** Conversely, a file that passes the check starts with "FILETYPE", then the delimiter (when
      the tag bound leaves room for one), then the cookie. */
  lemma {:induction false} FiletypeAcceptedShape(f: Format, text: string)
    requires f.Valid() && FiletypeStatus(f, NextRecord(f, text, 0).0) == 0
    ensures |text| >= 8 && text[..8] == "FILETYPE"
    ensures f.maxRectypeLen > 8 ==> text[8] == ':'
    ensures f.cookie != [] ==> 9 + |f.cookie| <= |text| && text[9..9 + |f.cookie|] == f.cookie
  {
    var e := LineEnd(text, 0, f.BufSize() - 1);
    assert text[0..e] == text[..e];
    FiletypeLineShape(f, text, e);
  }

  // ---------------------------------------------------------------------------------------
  // eiGetIV

  /** The size of the `iv` buffer initCrypt passes to eiGetIV. */
  const IvBufferSize: nat := 4096

  /** The nibble eiGetIV accepts for a character: only '0'-'9' and lowercase 'a'-'f'. */
  function Nibble(c: char): (n: Option<nat>)
    ensures n.Some? <==> ('0' <= c <= '9' || 'a' <= c <= 'f')
    ensures n.Some? ==> n.value < 16
  {
    if '0' <= c <= '9' then Some(c as int - '0' as int)
    else if 'a' <= c <= 'f' then Some(c as int - 'a' as int + 10)
    else None
  }

  predicate IsLowerHex(c: char) {
    Nibble(c).Some?
  }

  predicate AllLowerHex(s: string) {
    forall k :: 0 <= k < |s| ==> IsLowerHex(s[k])
  }

  /** The byte the characters at 2k and 2k+1 encode, high nibble first. */
  function PairByte(s: string, k: nat): (b: byte)
    requires 2 * k + 1 < |s| && IsLowerHex(s[2 * k]) && IsLowerHex(s[2 * k + 1])
    ensures b as int / 16 == Nibble(s[2 * k]).value && b as int % 16 == Nibble(s[2 * k + 1]).value
  {
    (16 * Nibble(s[2 * k]).value + Nibble(s[2 * k + 1]).value) as byte
  }

  /** The first `n` bytes a hex string encodes. */
  function HexPairs(s: string, n: nat): (r: seq<byte>)
    requires 2 * n <= |s| && AllLowerHex(s)
    ensures |r| == n
  {
    seq(n, k requires 0 <= k < n => PairByte(s, k))
  }

  /** What eiGetIV makes of a record when initCrypt asks for `leniv` bytes: the record reader's
      code when no record was read, 1 for another tag, for a length whose half is not `leniv`
      or for a character that is not a lowercase hex digit, and the decoded bytes otherwise. */
  function IvFromRecord(rec: RecordResult, leniv: nat): (r: Outcome<seq<byte>>)
    ensures r.Ok? ==> |r.value| == leniv
    ensures !rec.Record? ==> r == Fail(rec.Code())
  {
    match rec
    case Record(tag, value) =>
      if tag != "IV" then Fail(1)
      else if |value| / 2 != leniv then Fail(1)
      else if !AllLowerHex(value) then Fail(1)
      else Ok(HexPairs(value, leniv))
    case _ => Fail(rec.Code())
  }

  /** The conditions under which eiGetIV succeeds, and the bytes it stores then. */
  lemma {:induction false} IvDecoding(rec: RecordResult, leniv: nat)
    ensures IvFromRecord(rec, leniv).Ok? <==>
      rec.Record? && rec.tag == "IV" && |rec.value| / 2 == leniv && AllLowerHex(rec.value)
    ensures IvFromRecord(rec, leniv).Ok? ==>
      forall k :: 0 <= k < leniv ==>
        IvFromRecord(rec, leniv).value[k] as int
        == 16 * Nibble(rec.value[2 * k]).value + Nibble(rec.value[2 * k + 1]).value
  {
  }

  /** The digit a writer uses for a nibble. */
  function HexDigit(n: nat): (c: char)
    requires n < 16
    ensures Nibble(c) == Some(n)
  {
    if n < 10 then ('0' as int + n) as char else ('a' as int + n - 10) as char
  }

  /** The lowercase hex spelling of a byte string, two digits per byte, high nibble first. */
  function HexEncode(bs: seq<byte>): (s: string)
  {
    if bs == [] then []
    else [HexDigit(bs[0] as nat / 16), HexDigit(bs[0] as nat % 16)] + HexEncode(bs[1..])
  }

  /** The length of HexEncode and the two digits at each byte's position. */
  lemma {:induction false} HexEncodeShape(bs: seq<byte>)
    ensures |HexEncode(bs)| == 2 * |bs|
    ensures forall k :: 0 <= k < |bs| ==>
      HexEncode(bs)[2 * k] == HexDigit(bs[k] as nat / 16)
      && HexEncode(bs)[2 * k + 1] == HexDigit(bs[k] as nat % 16)
  {
    if bs != [] {
      HexEncodeShape(bs[1..]);
      var s := HexEncode(bs);
      assert s == [HexDigit(bs[0] as nat / 16), HexDigit(bs[0] as nat % 16)] + HexEncode(bs[1..]);
      forall k | 1 <= k < |bs|
        ensures s[2 * k] == HexDigit(bs[k] as nat / 16) && s[2 * k + 1] == HexDigit(bs[k] as nat % 16)
      {
        assert bs[1..][k - 1] == bs[k];
        assert s[2 * k] == HexEncode(bs[1..])[2 * (k - 1)];
        assert s[2 * k + 1] == HexEncode(bs[1..])[2 * (k - 1) + 1];
      }
    }
  }

  /** Every character of a hex spelling is accepted by eiGetIV. */
  lemma {:induction false} HexEncodeLowerHex(bs: seq<byte>)
    ensures AllLowerHex(HexEncode(bs))
  {
    HexEncodeShape(bs);
    var s := HexEncode(bs);
    forall i | 0 <= i < |s| ensures IsLowerHex(s[i]) {
      var k := i / 2;
      if i == 2 * k {
        assert s[2 * k] == HexDigit(bs[k] as nat / 16);
      } else {
        assert s[2 * k + 1] == HexDigit(bs[k] as nat % 16);
      }
    }
  }

  /** The IV a writer records as lowercase hex is read back byte for byte. */
  lemma {:induction false} IvRoundTrip(bs: seq<byte>)
    ensures IvFromRecord(Record("IV", HexEncode(bs)), |bs|) == Ok(bs)
  {
    HexEncodeShape(bs);
    HexEncodeLowerHex(bs);
    var s := HexEncode(bs);
    assert |s| / 2 == |bs|;
    forall k | 0 <= k < |bs| ensures PairByte(s, k) == bs[k] {
      var b := bs[k] as nat;
      assert 16 * (b / 16) + b % 16 == b;
    }
    assert HexPairs(s, |bs|) == bs;
  }

  /** A hex spelling holds neither a NUL nor a newline, so a record reader takes it whole. */
  lemma {:induction false} HexEncodePlain(bs: seq<byte>)
    ensures |HexEncode(bs)| == 2 * |bs| && NUL !in HexEncode(bs) && '\n' !in HexEncode(bs)
  {
    HexEncodeShape(bs);
    HexEncodeLowerHex(bs);
  }

  /** A digit after an even number of accepted digits changes nothing in what eiGetIV decodes. */
  lemma {:induction false} TrailingDigitIgnored(s: string, d: char, n: nat)
    requires |s| == 2 * n && AllLowerHex(s) && IsLowerHex(d)
    ensures IvFromRecord(Record("IV", s + [d]), n) == IvFromRecord(Record("IV", s), n)
  {
    var t := s + [d];
    assert forall i :: 0 <= i < |s| ==> t[i] == s[i];
    assert AllLowerHex(t);
    forall k | 0 <= k < n ensures PairByte(t, k) == PairByte(s, k) {
    }
    assert HexPairs(t, n) == HexPairs(s, n);
  }

  /** An IV value of odd length passes the length test: the trailing digit is ignored. */
  lemma {:induction false} IvOddLengthAccepted(bs: seq<byte>, d: char)
    requires IsLowerHex(d)
    ensures IvFromRecord(Record("IV", HexEncode(bs) + [d]), |bs|) == Ok(bs)
  {
    HexEncodeShape(bs);
    HexEncodeLowerHex(bs);
    TrailingDigitIgnored(HexEncode(bs), d, |bs|);
    IvRoundTrip(bs);
  }

  /** An uppercase hex digit anywhere in the value makes eiGetIV fail. */
  lemma {:induction false} IvUppercaseRejected(value: string, leniv: nat, k: nat)
    requires k < |value| && 'A' <= value[k] <= 'F'
    ensures IvFromRecord(Record("IV", value), leniv) == Fail(1)
  {
    assert !IsLowerHex(value[k]);
  }

  /** Two concrete records: four lowercase hex digits give a 2-byte IV, high nibble first, and
      are refused when the cipher's block is 8 bytes. */
  lemma {:induction false} IvExamples()
    ensures IvFromRecord(Record("IV", "0a1f"), 2) == Ok([0x0a, 0x1f])
    ensures IvFromRecord(Record("IV", "0a1f"), 8) == Fail(1)
  {
    var bs: seq<byte> := [0x0a, 0x1f];
    assert HexEncode(bs[1..]) == "1f";
    assert HexEncode(bs) == "0a1f";
    IvRoundTrip(bs);
  }

  /** eiGetIV: reads one record and decodes its value into `iv` one nibble at a time. On success
      the first `leniv` bytes are the decoded IV; an odd-length value also leaves its last digit,
      shifted into the high nibble, at iv[leniv]; the bytes above are untouched. */
  method GetIV(f: Format, eif: TextFile, iv: array<byte>, leniv: nat) returns (r: int)
    requires f.Valid() && eif.Valid() && iv.Length == IvBufferSize
    modifies eif, iv
    ensures eif.Valid()
    ensures eif.pos == NextRecord(f, eif.text, old(eif.pos)).1
    ensures var rec := NextRecord(f, eif.text, old(eif.pos)).0;
      var res := IvFromRecord(rec, leniv);
      && r == res.Code()
      && (res.Ok? ==> iv[..leniv] == res.value)
      && (res.Ok? && |rec.value| % 2 == 1 ==>
            iv[leniv] as int == 16 * Nibble(rec.value[|rec.value| - 1]).value)
      && (res.Ok? ==> forall k :: leniv + |rec.value| % 2 <= k < iv.Length ==> iv[k] == old(iv[k]))
  {
    var rectype := new char[f.maxRectypeLen + 1];
    var value := new char[f.maxValueLen + 1];
    r := GetRecord(f, eif, rectype, value);
    if r != 0 {
      return;
    }
    ghost var rec := NextRecord(f, eif.text, old(eif.pos)).0;
    ghost var v := rec.value;
    HeldCString(rectype, rec.tag);
    HeldCString(value, v);
    if CStr(rectype[..]) != "IV" {
      r := 1;
      return;
    }
    var valueLen := |CStr(value[..])|;
    if valueLen / 2 != leniv {
      r := 1;
      return;
    }
    var ok := DecodeNibbles(value, valueLen, iv);
    if !ok {
      r := 1;
      return;
    }
    assert iv[..leniv] == HexPairs(v, leniv);
    r := 0;
  }

  /** The nibble loop of eiGetIV over the first `valueLen` characters of `value`: it stops at the
      first character that is not a lowercase hex digit; even positions set the high nibble of
      iv[i/2], odd positions add the low nibble. */
  method DecodeNibbles(value: array<char>, valueLen: nat, iv: array<byte>) returns (ok: bool)
    requires valueLen <= value.Length && (valueLen + 1) / 2 <= iv.Length
    modifies iv
    ensures ok <==> AllLowerHex(value[..valueLen])
    ensures ok ==> forall k :: 0 <= k < valueLen / 2 ==> iv[k] == PairByte(value[..valueLen], k)
    ensures ok && valueLen % 2 == 1 ==>
      iv[valueLen / 2] as int == 16 * Nibble(value[valueLen - 1]).value
    ensures ok ==> forall k :: (valueLen + 1) / 2 <= k < iv.Length ==> iv[k] == old(iv[k])
  {
    ghost var v := value[..valueLen];
    var i, j := 0, 0;
    while i < valueLen
      invariant 0 <= i <= valueLen && j == i / 2
      invariant forall k :: 0 <= k < i ==> IsLowerHex(v[k])
      invariant forall k :: 0 <= k < i / 2 ==> iv[k] == PairByte(v, k)
      invariant i % 2 == 1 ==> iv[i / 2] as int == 16 * Nibble(v[i - 1]).value
      invariant forall k :: (i + 1) / 2 <= k < iv.Length ==> iv[k] == old(iv[k])
    {
      var c := value[i];
      assert c == v[i];
      var nibble: byte;
      if '0' <= c <= '9' {
        nibble := (c as int - '0' as int) as byte;
      } else if 'a' <= c <= 'f' {
        nibble := (c as int - 'a' as int + 10) as byte;
      } else {
        assert !IsLowerHex(v[i]);
        return false;
      }
      if i % 2 == 0 {
        iv[j] := nibble * 16;
      } else {
        iv[j] := iv[j] + nibble;
        j := j + 1;
      }
      i := i + 1;
    }
    ok := true;
  }

  // ---------------------------------------------------------------------------------------
  // eiGetEND and atoll

  /** The characters C's isspace accepts in the "C" locale. */
  predicate IsSpace(c: char) {
    c == ' ' || c == '\t' || c == '\n' || c == '\r' || c == 11 as char || c == 12 as char
  }

  predicate IsDigit(c: char) {
    '0' <= c <= '9'
  }

  /** The length of the leading run of white space. */
  function SpaceCount(s: string): (n: nat)
    ensures n <= |s| && (forall k :: 0 <= k < n ==> IsSpace(s[k]))
    ensures n < |s| ==> !IsSpace(s[n])
  {
    if s != [] && IsSpace(s[0]) then 1 + SpaceCount(s[1..]) else 0
  }

  /** The length of the leading run of decimal digits. */
  function DigitCount(s: string): (n: nat)
    ensures n <= |s| && (forall k :: 0 <= k < n ==> IsDigit(s[k]))
    ensures n < |s| ==> !IsDigit(s[n])
  {
    if s != [] && IsDigit(s[0]) then 1 + DigitCount(s[1..]) else 0
  }

  /** The run of digits ends exactly where the first non-digit is. */
  lemma {:induction false} DigitCountExact(s: string, n: nat)
    requires n <= |s| && (forall k :: 0 <= k < n ==> IsDigit(s[k])) && (n == |s| || !IsDigit(s[n]))
    ensures DigitCount(s) == n
  {
    if n > 0 {
      assert forall k :: 0 <= k < n - 1 ==> s[1..][k] == s[k + 1];
      DigitCountExact(s[1..], n - 1);
    }
  }

  /** The number a string of decimal digits denotes. */
  function DecimalValue(ds: string): nat
    requires forall k :: 0 <= k < |ds| ==> IsDigit(ds[k])
  {
    if ds == [] then 0
    else
      var last := ds[|ds| - 1];
      assert IsDigit(last);
      10 * DecimalValue(ds[..|ds| - 1]) + (last as int - '0' as int)
  }

  /** The number the leading digits of `s` denote, 0 when there are none. */
  function LeadingValue(s: string): nat {
    DecimalValue(s[..DigitCount(s)])
  }

  /** atoll: white space, an optional sign, then the leading decimal digits. */
  function Atoll(s: string): (n: int)
    ensures n < 0 ==> SpaceCount(s) < |s| && s[SpaceCount(s)] == '-'
  {
    var rest := s[SpaceCount(s)..];
    if rest != [] && rest[0] == '-' then -(LeadingValue(rest[1..]) as int)
    else if rest != [] && rest[0] == '+' then LeadingValue(rest[1..])
    else LeadingValue(rest)
  }

  /** The decimal spelling of a natural number, without leading zeros. */
  function DecimalString(n: nat): (s: string)
    ensures |s| > 0 && forall k :: 0 <= k < |s| ==> IsDigit(s[k])
  {
    if n < 10 then [('0' as int + n) as char]
    else DecimalString(n / 10) + [('0' as int + n % 10) as char]
  }

  lemma {:induction false} DecimalValueOfString(n: nat)
    ensures DecimalValue(DecimalString(n)) == n
  {
    var s := DecimalString(n);
    if n >= 10 {
      DecimalValueOfString(n / 10);
      assert s[..|s| - 1] == DecimalString(n / 10);
    }
  }

  /** atoll reads back the number written in decimal, whatever non-digit follows it. */
  lemma {:induction false} AtollOfDecimal(n: nat, rest: string)
    requires rest == [] || !IsDigit(rest[0])
    ensures Atoll(DecimalString(n) + rest) == n
  {
    var d := DecimalString(n);
    var s := d + rest;
    assert s[0] == d[0];
    assert SpaceCount(s) == 0;
    assert s[SpaceCount(s)..] == s;
    assert forall k :: 0 <= k < |d| ==> s[k] == d[k];
    DigitCountExact(s, |d|);
    assert s[..|d|] == d;
    DecimalValueOfString(n);
  }

  /** atoll reads a minus sign and the decimal spelling of a number as that number negated:
      an END value such as "-16" gives a negative offset. */
  lemma {:induction false} AtollOfNegative(n: nat, rest: string)
    requires rest == [] || !IsDigit(rest[0])
    ensures Atoll(['-'] + DecimalString(n) + rest) == -(n as int)
  {
    var d := DecimalString(n);
    var s := ['-'] + d + rest;
    AtollOfDecimal(n, rest);
    assert (d + rest)[0] == d[0];
    assert SpaceCount(d + rest) == 0;
    assert (d + rest)[SpaceCount(d + rest)..] == d + rest;
    assert !IsSpace(s[0]) && SpaceCount(s) == 0;
    assert s[SpaceCount(s)..] == s && s[1..] == d + rest;
  }

  /** A value that does not start with white space, a sign or a digit reads as 0. */
  lemma {:induction false} AtollNoDigits(s: string)
    requires s == [] || !(IsSpace(s[0]) || IsDigit(s[0]) || s[0] == '-' || s[0] == '+')
    ensures Atoll(s) == 0
  {
    assert s[SpaceCount(s)..] == s;
  }

  /** What eiGetEND makes of a record: the record reader's code when none was read, 1 for
      another tag, and the atoll value of the value otherwise. */
  function EndFromRecord(rec: RecordResult): (r: Outcome<int>)
    ensures r.Ok? <==> rec.Record? && rec.tag == "END"
    ensures !rec.Record? ==> r == Fail(rec.Code())
    ensures rec.Record? && rec.tag != "END" ==> r == Fail(1)
  {
    match rec
    case Record(tag, value) => if tag != "END" then Fail(1) else Ok(Atoll(value))
    case _ => Fail(rec.Code())
  }

  /** The END record a writer emits for offset `n` is read back as `n`. */
  lemma {:induction false} EndRoundTrip(n: nat)
    ensures EndFromRecord(Record("END", DecimalString(n))) == Ok(n)
  {
    AtollOfDecimal(n, []);
    assert DecimalString(n) + [] == DecimalString(n);
  }

  /** eiGetEND: reads one record, checks its tag and converts its value with atoll; `offs` is
      meaningful only when `r` is 0. */
  method ReadEnd(f: Format, eif: TextFile) returns (r: int, offs: int)
    requires f.Valid() && eif.Valid()
    modifies eif
    ensures eif.Valid()
    ensures eif.pos == NextRecord(f, eif.text, old(eif.pos)).1
    ensures var res := EndFromRecord(NextRecord(f, eif.text, old(eif.pos)).0);
      r == res.Code() && (res.Ok? ==> offs == res.value)
  {
    offs := 0;
    var rectype := new char[f.maxRectypeLen + 1];
    var value := new char[f.maxValueLen + 1];
    r := GetRecord(f, eif, rectype, value);
    if r != 0 {
      return;
    }
    ghost var rec := NextRecord(f, eif.text, old(eif.pos)).0;
    HeldCString(rectype, rec.tag);
    HeldCString(value, rec.value);
    if CStr(rectype[..]) != "END" {
      r := 1;
      return;
    }
    offs := Atoll(CStr(value[..]));
    r := 0;
  }

  // ---------------------------------------------------------------------------------------
  // The key-length test of initCrypt

  /** strlen(key) equals the algorithm's key length. */
  predicate KeyLengthOk(key: seq<char>, keyLen: nat)
    ensures KeyLengthOk(key, keyLen) ==> keyLen <= |key| && NUL !in key[..keyLen]
    ensures NUL !in key ==> (KeyLengthOk(key, keyLen) <==> |key| == keyLen)
  {
    |CStr(key)| == keyLen
  }
}
