/** The encryption-info record reader (eiGetRecord): one `TAG:VALUE\n` line of the metadata
    stream, read with fgets into a bounded buffer and split by two index loops. */
module Records {
  import opened Common

  /** The constants of the encryption-info header (libgcry.h, not part of this model):
      EIF_MAX_RECTYPE_LEN, EIF_MAX_VALUE_LEN and the RSGCRY_FILETYPE_NAME cookie. */
  datatype Format = Format(maxRectypeLen: nat, maxValueLen: nat, cookie: string) {
    /** What the model assumes of the header: positive bounds such that the `unsigned short`
        index `i` of eiGetRecord never wraps (it reaches EIF_MAX_RECTYPE_LEN + 1 after the tag
        loop), a value bound small enough that an IV value cannot reach past the 4096-byte IV
        buffer of initCrypt, and a cookie that is a proper C string. */
    predicate Valid() {
      && 0 < maxRectypeLen < 65535
      && 0 < maxValueLen <= 8192
      && NUL !in cookie
    }

    /** sizeof(buf) in eiGetRecord. */
    function BufSize(): nat {
      maxRectypeLen + maxValueLen + 128
    }
  }

  /** What eiGetRecord reports: 1 when fgets finds no line, 2 for a NUL met before the
      delimiter, 3 for a NUL met in the value, 0 with the two fields otherwise. */
  datatype RecordResult = NoLine | NulInTag | NulInValue | Record(tag: string, value: string) {
    function Code(): int {
      match this
      case Record(_, _) => 0
      case NoLine => 1
      case NulInTag => 2
      case NulInValue => 3
    }
  }

  /** The metadata file: its whole text and the read position of the FILE. */
  class TextFile {
    const text: string
    var pos: nat

    ghost predicate Valid()
      reads this
    {
      pos <= |text|
    }

    constructor (text: string)
      ensures this.text == text && pos == 0 && Valid()
    {
      this.text := text;
      pos := 0;
    }
  }

  /** The index just after the characters fgets takes when it starts at `i` with room for
      `budget` characters: it stops after a newline, at end of file, or when the room is used up. */
  function LineEnd(text: string, i: nat, budget: nat): (e: nat)
    requires i <= |text|
    ensures i <= e <= |text| && e - i <= budget
    ensures e == |text| || e - i == budget || (i < e && text[e - 1] == '\n')
    ensures i < |text| && 0 < budget ==> i < e
    decreases budget
  {
    if budget == 0 || i == |text| then i
    else if text[i] == '\n' then i + 1
    else LineEnd(text, i + 1, budget - 1)
  }

  /** eiGetRecord's buffer after fgets stored `chunk`: the chunk, its NUL terminator, then
      whatever `stale` held there before. */
  function AfterFgets(f: Format, chunk: string, stale: seq<char>): (b: seq<char>)
    requires |chunk| < f.BufSize() && |stale| == f.BufSize()
    ensures |b| == f.BufSize()
    ensures b[..|chunk|] == chunk && b[|chunk|] == NUL
    ensures forall k | |chunk| < k < |b| :: b[k] == stale[k]
  {
    chunk + [NUL] + stale[|chunk| + 1..]
  }

  /** A buffer of NULs: the stale contents of a zero-initialised buffer. */
  function Zeroed(f: Format): (z: seq<char>)
    ensures |z| == f.BufSize()
  {
    seq(f.BufSize(), _ => NUL)
  }

  /** Where the tag loop (`for(i = 0; i < EIF_MAX_RECTYPE_LEN && buf[i] != ':'; ++i)`) leaves `i`
      when it resumes at `i`; None when it meets a NUL first. */
  function TagStop(f: Format, b: seq<char>, i: nat): (r: Option<nat>)
    requires |b| == f.BufSize() && i <= f.maxRectypeLen
    ensures r.Some? ==> i <= r.value <= f.maxRectypeLen
    ensures r.Some? ==> r.value == f.maxRectypeLen || b[r.value] == ':'
    decreases f.maxRectypeLen - i
  {
    if i == f.maxRectypeLen || b[i] == ':' then Some(i)
    else if b[i] == NUL then None
    else TagStop(f, b, i + 1)
  }

  /** Where the value loop (`i < EIF_MAX_VALUE_LEN && buf[i] != '\n'`) leaves `i` when it
      resumes at `i`; None when it meets a NUL first. The bound is on the absolute index `i`. */
  function ValueStop(f: Format, b: seq<char>, i: nat): (r: Option<nat>)
    requires |b| == f.BufSize() && i <= |b|
    ensures r.Some? ==> i <= r.value
    ensures r.Some? && i < f.maxValueLen ==> r.value <= f.maxValueLen
    ensures r.Some? && i >= f.maxValueLen ==> r.value == i
    ensures r.Some? ==> r.value >= f.maxValueLen || b[r.value] == '\n'
    decreases f.maxValueLen - i
  {
    if i >= f.maxValueLen || b[i] == '\n' then Some(i)
    else if b[i] == NUL then None
    else ValueStop(f, b, i + 1)
  }

  /** The two loops of eiGetRecord over a whole buffer `b` (tools/rscryutil.c:59-72). */
  function ParseBuffer(f: Format, b: seq<char>): (r: RecordResult)
    requires f.Valid() && |b| == f.BufSize()
    ensures r != NoLine
    ensures r.Record? ==> |r.tag| <= f.maxRectypeLen && |r.value| < f.maxValueLen
  {
    match TagStop(f, b, 0)
    case None => NulInTag
    case Some(t) =>
      match ValueStop(f, b, t + 1)
      case None => NulInValue
      case Some(v) => Record(b[..t], b[t + 1..v])
  }

  /** eiGetRecord as written: the loops run over a buffer whose tail past fgets's terminator
      still holds the uninitialised `stale` contents. */
  function AsWrittenRecord(f: Format, chunk: string, stale: seq<char>): (r: RecordResult)
    requires f.Valid() && |chunk| < f.BufSize() && |stale| == f.BufSize()
    ensures r != NoLine
    ensures r.Record? ==> r.tag <= chunk && ':' !in r.tag && NUL !in r.tag
  {
    var b := AfterFgets(f, chunk, stale);
    TagStopSpec(f, b, 0);
    ParseBuffer(f, b)
  }

  /** The record parser the rest of the model uses: eiGetRecord over a zero-initialised buffer,
      so that no result depends on memory fgets did not write. */
  function ParseRecord(f: Format, chunk: string): (r: RecordResult)
    requires f.Valid() && |chunk| < f.BufSize()
    ensures r != NoLine
    ensures r.Record? ==> |r.tag| <= f.maxRectypeLen && |r.value| < f.maxValueLen
  {
    ParseBuffer(f, AfterFgets(f, chunk, Zeroed(f)))
  }

  /** fgets followed by the parse: the record found at `pos` and the position after it. */
  function NextRecord(f: Format, text: string, pos: nat): (res: (RecordResult, nat))
    requires f.Valid() && pos <= |text|
    ensures pos <= res.1 <= |text|
    ensures res.0 == NoLine <==> pos == |text|
    ensures res.0 != NoLine ==> pos < res.1
    ensures res.0.Record? ==> |res.0.tag| <= f.maxRectypeLen && |res.0.value| < f.maxValueLen
  {
    if pos == |text| then (NoLine, pos)
    else
      var e := LineEnd(text, pos, f.BufSize() - 1);
      (ParseRecord(f, text[pos..e]), e)
  }

  /** The metadata line a writer emits for one record. */
  function Line(tag: string, value: string): string {
    tag + ":" + value + "\n"
  }

  /** A tag and value that a Line can carry through eiGetRecord unchanged. */
  predicate Representable(f: Format, tag: string, value: string) {
    && |tag| <= f.maxRectypeLen && |tag| + 1 + |value| <= f.maxValueLen
    && ':' !in tag && NUL !in tag && '\n' !in tag
    && NUL !in value && '\n' !in value
  }

  /** `a` holds the C string `s`. */
  predicate HoldsCString(a: array<char>, s: string)
    reads a
  {
    |s| < a.Length && a[..|s|] == s && a[|s|] == NUL
  }

  // ---------------------------------------------------------------------------------------
  // The loops, stop by stop

  /** Where the tag loop stops, every character it passed is neither ':' nor NUL; where it
      fails, it met a NUL below the bound with no ':' before it. */
  lemma {:induction false} TagStopSpec(f: Format, b: seq<char>, i: nat)
    requires |b| == f.BufSize() && i <= f.maxRectypeLen
    ensures var r := TagStop(f, b, i);
      && (r.Some? ==> forall k :: i <= k < r.value ==> b[k] != ':' && b[k] != NUL)
      && (r.None? ==> exists k :: i <= k < f.maxRectypeLen && b[k] == NUL && forall m :: i <= m < k ==> b[m] != ':')
    decreases f.maxRectypeLen - i
  {
    if !(i == f.maxRectypeLen || b[i] == ':') && b[i] != NUL {
      TagStopSpec(f, b, i + 1);
    }
  }

  /** Where the value loop stops, every character it passed is neither newline nor NUL; where
      it fails, it met a NUL below the bound with no newline before it. */
  lemma {:induction false} ValueStopSpec(f: Format, b: seq<char>, i: nat)
    requires |b| == f.BufSize() && i <= |b|
    ensures var r := ValueStop(f, b, i);
      && (r.Some? ==> forall k :: i <= k < r.value ==> b[k] != '\n' && b[k] != NUL)
      && (r.None? ==> exists k :: i <= k < f.maxValueLen && b[k] == NUL && forall m :: i <= m < k ==> b[m] != '\n')
    decreases f.maxValueLen - i
  {
    if !(i >= f.maxValueLen || b[i] == '\n') && b[i] != NUL {
      ValueStopSpec(f, b, i + 1);
    }
  }

  /** The tag loop stops at `t` when the characters from `i` to `t` are neither ':' nor NUL and
      `t` is the bound or a ':'. */
  lemma {:induction false} TagStopAt(f: Format, b: seq<char>, i: nat, t: nat)
    requires |b| == f.BufSize() && i <= t <= f.maxRectypeLen
    requires forall k :: i <= k < t ==> b[k] != ':' && b[k] != NUL
    requires t == f.maxRectypeLen || b[t] == ':'
    ensures TagStop(f, b, i) == Some(t)
    decreases t - i
  {
    if i < t {
      TagStopAt(f, b, i + 1, t);
    }
  }

  /** The tag loop fails when it reaches a NUL at `k` below the bound with no ':' before it. */
  lemma {:induction false} TagStopNul(f: Format, b: seq<char>, i: nat, k: nat)
    requires |b| == f.BufSize() && i <= k < f.maxRectypeLen && b[k] == NUL
    requires forall m :: i <= m < k ==> b[m] != ':'
    ensures TagStop(f, b, i) == None
    decreases k - i
  {
    if i < k && b[i] != NUL {
      TagStopNul(f, b, i + 1, k);
    }
  }

  /** The value loop stops at `v` when the characters from `i` to `v` are neither newline nor NUL
      and `v` is at the bound or a newline. */
  lemma {:induction false} ValueStopAt(f: Format, b: seq<char>, i: nat, v: nat)
    requires |b| == f.BufSize() && i <= v <= |b|
    requires i < v ==> v <= f.maxValueLen
    requires forall k :: i <= k < v ==> b[k] != '\n' && b[k] != NUL
    requires v >= f.maxValueLen || b[v] == '\n'
    ensures ValueStop(f, b, i) == Some(v)
    decreases v - i
  {
    if i < v {
      ValueStopAt(f, b, i + 1, v);
    }
  }

  /** The value loop fails when it reaches a NUL at `k` below the bound with no newline before it. */
  lemma {:induction false} ValueStopNul(f: Format, b: seq<char>, i: nat, k: nat)
    requires |b| == f.BufSize() && i <= k < f.maxValueLen && b[k] == NUL
    requires forall m :: i <= m < k ==> b[m] != '\n'
    ensures ValueStop(f, b, i) == None
    decreases k - i
  {
    if i < k && b[i] != NUL {
      ValueStopNul(f, b, i + 1, k);
    }
  }

  /** The zero-filled buffer seen by ParseRecord: the chunk, then NULs. */
  lemma {:induction false} PaddedAt(f: Format, chunk: string, k: nat)
    requires |chunk| < f.BufSize() && k < f.BufSize()
    ensures AfterFgets(f, chunk, Zeroed(f))[k] == if k < |chunk| then chunk[k] else NUL
  {
  }

  // ---------------------------------------------------------------------------------------
  // What a parsed record holds

  /** A successful parse: the tag is the line's characters before the first ':', cut at the tag
      bound; the value is the characters after that position, up to a newline or the absolute
      value bound; neither holds a NUL, and the value holds no newline. */
  lemma {:induction false} RecordFields(f: Format, chunk: string)
    requires f.Valid() && |chunk| < f.BufSize() && ParseRecord(f, chunk).Record?
    ensures var r := ParseRecord(f, chunk);
      var t := |r.tag|;
      var v := t + 1 + |r.value|;
      && t <= f.maxRectypeLen && t <= |chunk| && r.tag == chunk[..t]
      && (t < f.maxRectypeLen ==> t < |chunk| && chunk[t] == ':')
      && ':' !in r.tag && NUL !in r.tag
      && (r.value != [] ==> v <= |chunk| && r.value == chunk[t + 1..v])
      && '\n' !in r.value && NUL !in r.value
      && (v >= f.maxValueLen || (v < |chunk| && chunk[v] == '\n'))
  {
    var b := AfterFgets(f, chunk, Zeroed(f));
    var t := TagStop(f, b, 0).value;
    var v := ValueStop(f, b, t + 1).value;
    TagStopSpec(f, b, 0);
    ValueStopSpec(f, b, t + 1);
    assert t <= |chunk|;
    assert b[..t] == chunk[..t];
    if t < f.maxRectypeLen {
      PaddedAt(f, chunk, t);
    }
    if t + 1 < v {
      assert v <= |chunk|;
      assert b[t + 1..v] == chunk[t + 1..v];
    }
    if v < f.maxValueLen {
      PaddedAt(f, chunk, v);
    }
  }

  /** Position `k` of a line is a NUL (an embedded one, or the end of the line) that the tag loop
      reaches: it lies within the tag bound and no ':' comes before it. */
  predicate NulBeforeColon(f: Format, chunk: string, k: nat) {
    && k < f.maxRectypeLen && k <= |chunk| && (k == |chunk| || chunk[k] == NUL)
    && forall m :: 0 <= m < k ==> chunk[m] != ':'
  }

  /** eiGetRecord returns 2 exactly when a NUL comes before any ':' within the tag bound. */
  lemma {:induction false} NulInTagIff(f: Format, chunk: string)
    requires f.Valid() && |chunk| < f.BufSize()
    ensures ParseRecord(f, chunk) == NulInTag <==> exists k: nat :: NulBeforeColon(f, chunk, k)
  {
    var b := AfterFgets(f, chunk, Zeroed(f));
    if ParseRecord(f, chunk) == NulInTag {
      assert TagStop(f, b, 0).None?;
      TagStopSpec(f, b, 0);
      var k :| 0 <= k < f.maxRectypeLen && b[k] == NUL && forall m :: 0 <= m < k ==> b[m] != ':';
      var k' := if k < |chunk| then k else |chunk|;
      forall m | 0 <= m < k' ensures chunk[m] != ':' {
        PaddedAt(f, chunk, m);
      }
      PaddedAt(f, chunk, k');
      assert NulBeforeColon(f, chunk, k');
    }
    if exists k: nat :: NulBeforeColon(f, chunk, k) {
      var k: nat :| NulBeforeColon(f, chunk, k);
      forall m | 0 <= m < k ensures b[m] != ':' {
        PaddedAt(f, chunk, m);
      }
      PaddedAt(f, chunk, k);
      TagStopNul(f, b, 0, k);
    }
  }

  /** A line written as `tag:value\n` parses back to the same tag and value. */
  lemma {:induction false} LineRoundTrip(f: Format, tag: string, value: string)
    requires f.Valid() && Representable(f, tag, value)
    ensures |Line(tag, value)| < f.BufSize()
    ensures ParseRecord(f, Line(tag, value)) == Record(tag, value)
  {
    var chunk := Line(tag, value);
    var b := AfterFgets(f, chunk, Zeroed(f));
    var t := |tag|;
    var v := t + 1 + |value|;
    assert forall k :: 0 <= k < |chunk| ==> b[k] == chunk[k] by {
      forall k | 0 <= k < |chunk| ensures b[k] == chunk[k] {
        PaddedAt(f, chunk, k);
      }
    }
    assert forall k :: 0 <= k < t ==> chunk[k] == tag[k];
    assert chunk[t] == ':';
    TagStopAt(f, b, 0, t);
    assert forall k :: t + 1 <= k < v ==> chunk[k] == value[k - t - 1];
    assert chunk[v] == '\n';
    ValueStopAt(f, b, t + 1, v);
    assert b[..t] == tag;
    assert b[t + 1..v] == value;
  }

  /** fgets stops right after the first newline when that comes within its room. */
  lemma {:induction false} LineEndAtNewline(text: string, i: nat, budget: nat, e: nat)
    requires i < e <= |text| && e - i <= budget && text[e - 1] == '\n'
    requires forall k :: i <= k < e - 1 ==> text[k] != '\n'
    ensures LineEnd(text, i, budget) == e
    decreases e - i
  {
    if i < e - 1 {
      LineEndAtNewline(text, i + 1, budget - 1, e);
    }
  }

  /** fgets takes the rest of the file when no newline is left and the rest fits its room. */
  lemma {:induction false} LineEndAtEof(text: string, i: nat, budget: nat)
    requires i <= |text| && |text| - i <= budget
    requires forall k :: i <= k < |text| ==> text[k] != '\n'
    ensures LineEnd(text, i, budget) == |text|
    decreases |text| - i
  {
    if i < |text| {
      LineEndAtEof(text, i + 1, budget - 1);
    }
  }

  /** `text` holds `line` from position `pos` on, character by character. */
  predicate LineAt(text: string, pos: nat, line: string)
    decreases |line|
  {
    if line == [] then pos <= |text|
    else pos < |text| && text[pos] == line[0] && LineAt(text, pos + 1, line[1..])
  }

  /** Holding a line at `pos` is having it as the slice that starts there. */
  lemma {:induction false} LineAtIsSlice(text: string, pos: nat, line: string)
    ensures LineAt(text, pos, line) <==> pos + |line| <= |text| && text[pos..pos + |line|] == line
    decreases |line|
  {
    if line != [] {
      LineAtIsSlice(text, pos + 1, line[1..]);
      if pos + |line| <= |text| {
        assert text[pos..pos + |line|] == [text[pos]] + text[pos + 1..pos + |line|];
        assert line == [line[0]] + line[1..];
      }
    }
  }

  /** Text that holds `a + b` at `pos` holds `a` there and `b` right after it. */
  lemma {:induction false} LineAtSplit(text: string, pos: nat, a: string, b: string)
    requires LineAt(text, pos, a + b)
    ensures LineAt(text, pos, a) && LineAt(text, pos + |a|, b)
    decreases |a|
  {
    if a == [] {
      assert a + b == b;
    } else {
      assert (a + b)[0] == a[0] && (a + b)[1..] == a[1..] + b;
      LineAtSplit(text, pos + 1, a[1..], b);
    }
  }

  /** The record at `pos` is the parse of the characters up to where fgets stops. */
  lemma {:induction false} NextRecordIs(f: Format, text: string, pos: nat, e: nat, chunk: string)
    requires f.Valid() && pos < e <= |text| && LineEnd(text, pos, f.BufSize() - 1) == e
    requires text[pos..e] == chunk && |chunk| < f.BufSize()
    ensures NextRecord(f, text, pos).0 == ParseRecord(f, chunk) && NextRecord(f, text, pos).1 == e
  {
  }

  /** fgets stops right after a record line that `text` holds at `pos`, given room for it. */
  lemma {:induction false} LineEndOfLine(text: string, pos: nat, tag: string, value: string, budget: nat)
    requires LineAt(text, pos, Line(tag, value)) && |Line(tag, value)| <= budget
    requires '\n' !in tag && '\n' !in value
    ensures LineEnd(text, pos, budget) == pos + |Line(tag, value)|
  {
    var line := Line(tag, value);
    var e := pos + |line|;
    LineAtIsSlice(text, pos, line);
    assert forall k :: pos <= k < e ==> text[k] == line[k - pos] by {
      forall k | pos <= k < e ensures text[k] == line[k - pos] {
        assert text[pos..e][k - pos] == text[k];
      }
    }
    assert forall k :: 0 <= k < |line| - 1 ==> line[k] != '\n' by {
      forall k | 0 <= k < |line| - 1 ensures line[k] != '\n' {
        if k < |tag| {
          assert line[k] == tag[k];
        } else if |tag| < k {
          assert line[k] == value[k - |tag| - 1];
        }
      }
    }
    LineEndAtNewline(text, pos, budget, e);
  }

  /** Reading a metadata file whose next line is `tag:value\n` yields that record and moves past
      exactly that line. */
  lemma {:induction false} NextRecordOfLine(f: Format, text: string, pos: nat, tag: string, value: string)
    requires f.Valid() && Representable(f, tag, value) && LineAt(text, pos, Line(tag, value))
    ensures NextRecord(f, text, pos).0 == Record(tag, value)
    ensures NextRecord(f, text, pos).1 == pos + |Line(tag, value)|
  {
    LineRoundTrip(f, tag, value);
    LineAtIsSlice(text, pos, Line(tag, value));
    LineEndOfLine(text, pos, tag, value, f.BufSize() - 1);
    NextRecordIs(f, text, pos, pos + |Line(tag, value)|, Line(tag, value));
  }

  /** A record line without its newline: the value loop meets fgets's terminator before the
      value bound, so eiGetRecord returns 3. */
  lemma {:induction false} UnterminatedRecord(f: Format, tag: string, value: string)
    requires f.Valid() && Representable(f, tag, value) && |tag| + 1 + |value| < f.maxValueLen
    ensures ParseRecord(f, tag + ":" + value) == NulInValue
  {
    var chunk := tag + ":" + value;
    var b := AfterFgets(f, chunk, Zeroed(f));
    var t := |tag|;
    forall k | 0 <= k <= |chunk| ensures b[k] == if k < |chunk| then chunk[k] else NUL {
      PaddedAt(f, chunk, k);
    }
    assert forall k :: 0 <= k < t ==> chunk[k] == tag[k];
    assert chunk[t] == ':';
    TagStopAt(f, b, 0, t);
    assert forall k :: t + 1 <= k < |chunk| ==> chunk[k] == value[k - t - 1];
    ValueStopNul(f, b, t + 1, |chunk|);
  }

  /** A last line of the metadata file that ends without a newline: eiGetRecord returns 3 and the
      file is left at its end. */
  lemma {:induction false} UnterminatedLastLine(f: Format, pre: string, tag: string, value: string)
    requires f.Valid() && Representable(f, tag, value) && |tag| + 1 + |value| < f.maxValueLen
    ensures NextRecord(f, pre + tag + ":" + value, |pre|) == (NulInValue, |pre| + |tag| + 1 + |value|)
  {
    var chunk := tag + ":" + value;
    var text := pre + chunk;
    assert text == pre + tag + ":" + value;
    assert forall k :: 0 <= k < |chunk| ==> chunk[k] != '\n' by {
      forall k | 0 <= k < |chunk| ensures chunk[k] != '\n' {
        if k < |tag| {
          assert chunk[k] == tag[k];
        } else if |tag| < k {
          assert chunk[k] == value[k - |tag| - 1];
        }
      }
    }
    assert forall k :: |pre| <= k < |text| ==> text[k] == chunk[k - |pre|];
    LineEndAtEof(text, |pre|, f.BufSize() - 1);
    assert text[|pre|..|text|] == chunk;
    UnterminatedRecord(f, tag, value);
    assert NextRecord(f, text, |pre|) == (ParseRecord(f, chunk), |text|);
  }

  // ---------------------------------------------------------------------------------------
  // The read past fgets's terminator

  /** The lines on which eiGetRecord as written reads memory fgets did not write: exactly
      EIF_MAX_RECTYPE_LEN characters, none a ':' or a NUL, with room left for the value loop. */
  predicate ReadsPastLine(f: Format, chunk: string) {
    |chunk| == f.maxRectypeLen && f.maxRectypeLen + 1 < f.maxValueLen && ':' !in chunk && NUL !in chunk
  }

  /** The tag loop gives the same result on two buffers that agree up to the line's terminator. */
  lemma {:induction false} TagStopAgree(f: Format, b1: seq<char>, b2: seq<char>, n: nat, i: nat)
    requires |b1| == |b2| == f.BufSize() && n < |b1| && i <= n && i <= f.maxRectypeLen
    requires b1[n] == NUL && forall k :: 0 <= k <= n ==> b1[k] == b2[k]
    ensures TagStop(f, b1, i) == TagStop(f, b2, i)
    decreases n - i
  {
    if i < f.maxRectypeLen && b1[i] != ':' && b1[i] != NUL {
      TagStopAgree(f, b1, b2, n, i + 1);
    }
  }

  /** The value loop gives the same result on two buffers that agree up to the line's terminator. */
  lemma {:induction false} ValueStopAgree(f: Format, b1: seq<char>, b2: seq<char>, n: nat, i: nat)
    requires |b1| == |b2| == f.BufSize() && n < |b1| && i <= n
    requires b1[n] == NUL && forall k :: 0 <= k <= n ==> b1[k] == b2[k]
    ensures ValueStop(f, b1, i) == ValueStop(f, b2, i)
    decreases n - i
  {
    if i < f.maxValueLen && b1[i] != '\n' && b1[i] != NUL {
      ValueStopAgree(f, b1, b2, n, i + 1);
    }
  }

  /** Outside ReadsPastLine, whatever the buffer held before does not matter: eiGetRecord as
      written and the zero-initialised parser agree. */
  lemma {:induction false} StaleTailIrrelevant(f: Format, chunk: string, stale: seq<char>)
    requires f.Valid() && |chunk| < f.BufSize() && |stale| == f.BufSize()
    requires !ReadsPastLine(f, chunk)
    ensures AsWrittenRecord(f, chunk, stale) == ParseRecord(f, chunk)
  {
    var n := |chunk|;
    var b1 := AfterFgets(f, chunk, stale);
    var b2 := AfterFgets(f, chunk, Zeroed(f));
    forall k | 0 <= k <= n ensures b1[k] == b2[k] {
      PaddedAt(f, chunk, k);
    }
    TagStopAgree(f, b1, b2, n, 0);
    TagStopSpec(f, b1, 0);
    var ts := TagStop(f, b1, 0);
    if ts.Some? {
      var t := ts.value;
      assert b1[..t] == b2[..t];
      if t + 1 <= n {
        ValueStopAgree(f, b1, b2, n, t + 1);
        ValueStopSpec(f, b1, t + 1);
        var vs := ValueStop(f, b1, t + 1);
        if vs.Some? {
          assert vs.value <= n;
          assert b1[t + 1..vs.value] == b2[t + 1..vs.value];
        }
      } else {
        assert t == n == f.maxRectypeLen;
        forall k | 0 <= k < n ensures chunk[k] != ':' && chunk[k] != NUL {
        }
        assert f.maxRectypeLen + 1 >= f.maxValueLen;
      }
    }
  }

  /** A line of EIF_MAX_RECTYPE_LEN - 1 ordinary characters and its newline. */
  function LongTagLine(f: Format): (s: string)
    requires f.Valid()
    ensures |s| == f.maxRectypeLen
  {
    seq(f.maxRectypeLen - 1, _ => 'x') + "\n"
  }

  /** On that line eiGetRecord as written decides by the byte after fgets's terminator: a stale
      newline there makes it accept the line with an empty value, where the zero-initialised
      parser reports a NUL in the value. */
  lemma {:induction false} StaleTailDecides(f: Format, stale: seq<char>)
    requires f.Valid() && f.maxRectypeLen + 1 < f.maxValueLen
    requires |stale| == f.BufSize() && stale[f.maxRectypeLen + 1] == '\n'
    ensures ReadsPastLine(f, LongTagLine(f))
    ensures AsWrittenRecord(f, LongTagLine(f), stale) == Record(LongTagLine(f), [])
    ensures ParseRecord(f, LongTagLine(f)) == NulInValue
  {
    var chunk := LongTagLine(f);
    var r := f.maxRectypeLen;
    assert forall k :: 0 <= k < r ==> chunk[k] == if k < r - 1 then 'x' else '\n';
    var b1 := AfterFgets(f, chunk, stale);
    var b2 := AfterFgets(f, chunk, Zeroed(f));
    assert forall k :: 0 <= k < r ==> b1[k] == chunk[k] && b2[k] == chunk[k] by {
      forall k | 0 <= k < r ensures b1[k] == chunk[k] && b2[k] == chunk[k] {
        assert b1[..r][k] == chunk[k];
        assert b2[..r][k] == chunk[k];
      }
    }
    TagStopAt(f, b1, 0, r);
    TagStopAt(f, b2, 0, r);
    ValueStopAt(f, b1, r + 1, r + 1);
    assert b1[..r] == chunk;
    ValueStopNul(f, b2, r + 1, r + 1);
  }

  /** A NUL-free string held in an array is what strcmp and strlen see there. */
  lemma {:induction false} HeldCString(a: array<char>, s: string)
    requires HoldsCString(a, s) && NUL !in s
    ensures CStr(a[..]) == s
  {
    assert a[..][..|s|] == s;
    CStrTerminated(a[..], |s|);
  }

  /** fgets(buf, sizeof(buf), eifp): when a character is left, stores the next line (at most
      sizeof(buf)-1 characters) and a NUL terminator at the front of `buf`, leaving the rest of
      `buf` as it was, and advances the file; at end of file it reports failure. */
  method Fgets(f: Format, eif: TextFile, buf: array<char>) returns (got: bool)
    requires eif.Valid() && buf.Length == f.BufSize()
    modifies eif, buf
    ensures eif.Valid()
    ensures got <==> old(eif.pos) < |eif.text|
    ensures !got ==> eif.pos == old(eif.pos) && buf[..] == old(buf[..])
    ensures got ==> eif.pos == LineEnd(eif.text, old(eif.pos), f.BufSize() - 1)
    ensures got ==> buf[..] == AfterFgets(f, eif.text[old(eif.pos)..eif.pos], old(buf[..]))
  {
    if eif.pos == |eif.text| {
      return false;
    }
    var e := LineEnd(eif.text, eif.pos, f.BufSize() - 1);
    var chunk := eif.text[eif.pos..e];
    forall k | 0 <= k <= |chunk| {
      buf[k] := if k < |chunk| then chunk[k] else NUL;
    }
    eif.pos := e;
    got := true;
  }

  /** The tag loop of eiGetRecord (tools/rscryutil.c:59-64): copies `buf` into `rectype` up to the
      first ':' or the tag bound and terminates it; None when it meets a NUL first. */
  method CopyTag(f: Format, buf: array<char>, rectype: array<char>) returns (t: Option<nat>)
    requires f.Valid() && buf.Length == f.BufSize() && rectype.Length == f.maxRectypeLen + 1
    modifies rectype
    ensures t == TagStop(f, buf[..], 0)
    ensures t.Some? ==> rectype[..t.value] == buf[..t.value] && rectype[t.value] == NUL
  {
    ghost var b := buf[..];
    var i := 0;
    while i < f.maxRectypeLen && buf[i] != ':'
      invariant 0 <= i <= f.maxRectypeLen
      invariant TagStop(f, b, i) == TagStop(f, b, 0)
      invariant rectype[..i] == b[..i]
    {
      if buf[i] == NUL {
        return None;
      }
      rectype[i] := buf[i];
      i := i + 1;
    }
    rectype[i] := NUL;
    assert rectype[..i] == b[..i];
    t := Some(i);
  }

  /** The value loop of eiGetRecord (tools/rscryutil.c:65-71), entered at index `start`: copies
      `buf` into `value` up to a newline or while the absolute index is below the value bound,
      and terminates it; None when it meets a NUL first. */
  method CopyValue(f: Format, buf: array<char>, start: nat, value: array<char>) returns (v: Option<nat>)
    requires f.Valid() && buf.Length == f.BufSize() && value.Length == f.maxValueLen + 1
    requires 0 < start <= f.maxRectypeLen + 1
    modifies value
    ensures v == ValueStop(f, buf[..], start)
    ensures v.Some? ==> value[..v.value - start] == buf[start..v.value] && value[v.value - start] == NUL
  {
    ghost var b := buf[..];
    var i, j := start, 0;
    while i < f.maxValueLen && buf[i] != '\n'
      invariant start <= i <= f.BufSize()
      invariant i > start ==> i <= f.maxValueLen
      invariant j == i - start
      invariant ValueStop(f, b, i) == ValueStop(f, b, start)
      invariant value[..j] == b[start..i]
    {
      if buf[i] == NUL {
        return None;
      }
      value[j] := buf[i];
      i, j := i + 1, j + 1;
    }
    value[j] := NUL;
    assert value[..j] == b[start..i];
    v := Some(i);
  }

  /** The two index loops of eiGetRecord (tools/rscryutil.c:59-72) over the whole of `buf`,
      copying the tag into `rectype` and the value into `value`. */
  method SplitRecord(f: Format, buf: array<char>, rectype: array<char>, value: array<char>) returns (r: int)
    requires f.Valid() && buf.Length == f.BufSize()
    requires rectype.Length == f.maxRectypeLen + 1 && value.Length == f.maxValueLen + 1
    requires rectype != value && buf != rectype && buf != value
    modifies rectype, value
    ensures r == ParseBuffer(f, buf[..]).Code()
    ensures var rec := ParseBuffer(f, buf[..]);
      rec.Record? ==> HoldsCString(rectype, rec.tag) && HoldsCString(value, rec.value)
  {
    var t := CopyTag(f, buf, rectype);
    if t.None? {
      return 2;
    }
    var v := CopyValue(f, buf, t.value + 1, value);
    if v.None? {
      return 3;
    }
    r := 0;
  }

  /** eiGetRecord (tools/rscryutil.c:47-74), with `buf` zero-initialised: reads one line of the
      metadata file and copies its tag and value into the caller's `rectype` and `value`. */
  method GetRecord(f: Format, eif: TextFile, rectype: array<char>, value: array<char>) returns (r: int)
    requires f.Valid() && eif.Valid() && rectype != value
    requires rectype.Length == f.maxRectypeLen + 1 && value.Length == f.maxValueLen + 1
    modifies eif, rectype, value
    ensures eif.Valid()
    ensures r == NextRecord(f, eif.text, old(eif.pos)).0.Code()
    ensures eif.pos == NextRecord(f, eif.text, old(eif.pos)).1
    ensures var rec := NextRecord(f, eif.text, old(eif.pos)).0;
      rec.Record? ==> HoldsCString(rectype, rec.tag) && HoldsCString(value, rec.value)
                      && NUL !in rec.tag && NUL !in rec.value
  {
    var buf := new char[f.BufSize()](_ => NUL);
    assert buf[..] == Zeroed(f);
    var got := Fgets(f, eif, buf);
    if !got {
      return 1;
    }
    r := SplitRecord(f, buf, rectype, value);
    if r == 0 {
      RecordFields(f, eif.text[old(eif.pos)..eif.pos]);
    }
  }
}
