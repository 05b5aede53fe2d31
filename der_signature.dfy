/**
 * `parseDerSignature`: turns a DER `SEQUENCE { INTEGER r, INTEGER s }`
 * (ITU-T X.690: section 8.9 for SEQUENCE, section 8.3 for INTEGER, section 8.1.3
 * for length octets) into the raw `r ‖ s` form a WebCrypto ECDSA verifier takes.
 *
 * `DerToRaw` is what the code computes, stated as a function;
 * `ParseDerSignature` is the code's scanning loop, proved to compute it.
 */
module DerSignature {
  import opened Wrappers
  import opened Bytes

  datatype DerError =
    | LengthMismatch     // "bad der encoded signature, expected len: ..."
    | LongFormLength     // "Need to parse indefinite r,s segments"

  const SequenceTag: byte := 0x30
  const IntegerTag: byte := 0x02

  /** `s` without its leading 0x00 bytes (the inner `while` loop). */
  function StripLeadingZeros(s: seq<byte>): (r: seq<byte>)
    decreases |s|
  {
    if |s| > 0 && s[0] == 0 then StripLeadingZeros(s[1..]) else s
  }

  /**
   * Stripping removes exactly the leading zeros: what is left is a suffix of the
   * input that is empty or starts with a non-zero byte, and everything removed was 0.
   */
  lemma {:induction false} StripLeadingZerosSpec(s: seq<byte>)
    ensures var r := StripLeadingZeros(s);
      && |r| <= |s| && r == s[|s| - |r|..]
      && (r == [] || r[0] != 0)
      && (forall i :: 0 <= i < |s| - |r| ==> s[i] == 0)
    decreases |s|
  {
    if |s| > 0 && s[0] == 0 {
      StripLeadingZerosSpec(s[1..]);
      var r := StripLeadingZeros(s[1..]);
      assert s[1..][|s| - 1 - |r|..] == s[|s| - |r|..];
    }
  }

  /** `Buffer.concat(parts)`. */
  function Flatten(parts: seq<seq<byte>>): seq<byte>
    decreases |parts|
  {
    if parts == [] then [] else parts[0] + Flatten(parts[1..])
  }

  /** Puts `parts` in front of the parts a scan goes on to find, unless it fails. */
  function Prepend(parts: seq<seq<byte>>, rest: Result<seq<seq<byte>>, DerError>): Result<seq<seq<byte>>, DerError> {
    match rest
    case Ok(more) => Ok(parts + more)
    case Err(e) => Err(e)
  }

  /**
   * The `for` loop from index `i` on, while `i <= totalLen`: any byte other than
   * 0x02 is stepped over; at a 0x02 the next byte is the segment length (long form
   * throws), the content is the following `len` bytes (`slice` clips at the end of
   * the buffer) without its leading zeros, and the scan resumes at `i + len + 1`.
   */
  function Segments(b: seq<byte>, totalLen: nat, i: nat): Result<seq<seq<byte>>, DerError>
    requires |b| == totalLen + 2
    decreases |b| - i
  {
    if i > totalLen then Ok([])
    else if b[i] != IntegerTag then Segments(b, totalLen, i + 1)
    else if b[i + 1] >= 0x80 then Err(LongFormLength)
    else
      var len := b[i + 1];
      var content := b[i + 2 .. Min(i + 2 + len, |b|)];
      Prepend([StripLeadingZeros(content)], Segments(b, totalLen, i + len + 1))
  }

  /** What `parseDerSignature(buff)` returns or throws; the raw form is never longer than the input. */
  function DerToRaw(b: seq<byte>): (r: Result<seq<byte>, DerError>)
    ensures r.Ok? ==> |r.value| <= |b|
  {
    if |b| == 0 || b[0] != SequenceTag then Ok(b)
    else if |b| < 2 || |b| != b[1] as int + 2 then Err(LengthMismatch)
    else
      SegmentsOutputBound(b, b[1], 2);
      match Segments(b, b[1], 2)
      case Ok(parts) => Ok(Flatten(parts))
      case Err(e) => Err(e)
  }

  lemma FlattenCons(x: seq<byte>, more: seq<seq<byte>>)
    ensures Flatten([x] + more) == x + Flatten(more)
  {
    assert ([x] + more)[1..] == more;
  }

  /**
   * The contents a scan from `i` collects fit in the bytes from `i` on: each
   * content lies past its tag and length byte, and the next one starts after it.
   */
  lemma {:induction false} SegmentsOutputBound(b: seq<byte>, totalLen: nat, i: nat)
    requires |b| == totalLen + 2
    ensures Segments(b, totalLen, i).Ok? ==>
      |Flatten(Segments(b, totalLen, i).value)| <= if i <= |b| then |b| - i else 0
    decreases |b| - i
  {
    if i > totalLen {
    } else if b[i] != IntegerTag {
      SegmentsOutputBound(b, totalLen, i + 1);
    } else if b[i + 1] < 0x80 {
      var len := b[i + 1];
      var content := b[i + 2 .. Min(i + 2 + len, |b|)];
      SegmentsOutputBound(b, totalLen, i + len + 1);
      var rest := Segments(b, totalLen, i + len + 1);
      if rest.Ok? {
        StripLeadingZerosSpec(content);
        FlattenCons(StripLeadingZeros(content), rest.value);
      }
    }
  }

  lemma PrependAssoc(p: seq<seq<byte>>, q: seq<seq<byte>>, rest: Result<seq<seq<byte>>, DerError>)
    ensures Prepend(p, Prepend(q, rest)) == Prepend(p + q, rest)
  {
    if rest.Ok? { assert p + (q + rest.value) == (p + q) + rest.value; }
  }

  lemma PrependNothing(rest: Result<seq<seq<byte>>, DerError>)
    ensures Prepend([], rest) == rest
  {
    if rest.Ok? { assert [] + rest.value == rest.value; }
  }

  /** One step of the zero-skipping loop. */
  lemma StripSkipsZero(s: seq<byte>, k: nat)
    requires k < |s| && s[k] == 0
    ensures StripLeadingZeros(s[k..]) == StripLeadingZeros(s[k + 1..])
  {
    assert s[k..][1..] == s[k + 1..];
  }

  /** The zero-skipping loop stops where stripping stops. */
  lemma StripStops(s: seq<byte>, k: nat)
    requires k <= |s| && (k == |s| || s[k] != 0)
    ensures StripLeadingZeros(s[k..]) == s[k..]
  {
  }

  /** One step of the scan at an INTEGER tag with a short-form length. */
  lemma SegmentsAtInteger(b: seq<byte>, totalLen: nat, i: nat)
    requires |b| == totalLen + 2 && 2 <= i <= totalLen
    requires b[i] == IntegerTag && b[i + 1] < 0x80
    ensures Segments(b, totalLen, i)
      == Prepend([StripLeadingZeros(b[i + 2..Min(i + 2 + b[i + 1], |b|)])], Segments(b, totalLen, i + b[i + 1] + 1))
  {
  }

  /** One step of the scan over a byte that is not an INTEGER tag. */
  lemma SegmentsSkip(b: seq<byte>, totalLen: nat, i: nat)
    requires |b| == totalLen + 2 && 2 <= i <= totalLen && b[i] != IntegerTag
    ensures Segments(b, totalLen, i) == Segments(b, totalLen, i + 1)
  {
  }

  /**
   * The inner `while`: advances `start` over 0x00 bytes, stopping at `end` or at
   * the end of the buffer (where `buff[start]` is `undefined`).
   */
  method SkipLeadingZeros(buff: seq<byte>, start0: nat, end: nat) returns (start: nat)
    requires start0 <= |buff| && start0 <= end
    ensures start0 <= start <= Min(end, |buff|)
    ensures buff[start..Min(end, |buff|)] == StripLeadingZeros(buff[start0..Min(end, |buff|)])
  {
    ghost var stop := Min(end, |buff|);
    ghost var content := buff[start0..stop];
    start := start0;
    while start < end && start < |buff| && buff[start] == 0
      invariant start0 <= start <= stop
      invariant StripLeadingZeros(content) == StripLeadingZeros(content[start - start0..])
    {
      StripSkipsZero(content, start - start0);
      start := start + 1;
    }
    StripStops(content, start - start0);
    assert buff[start..stop] == content[start - start0..];
  }

  /** The code's scanner: the index loop over the buffer, growing the list of parts. */
  method ParseDerSignature(buff: seq<byte>) returns (r: Result<seq<byte>, DerError>)
    ensures r == DerToRaw(buff)
  {
    if |buff| == 0 || buff[0] != SequenceTag {
      return Ok(buff);
    }
    if |buff| < 2 || |buff| != buff[1] as int + 2 {
      return Err(LengthMismatch);
    }
    var totalLen: nat := buff[1];
    var parts: seq<seq<byte>> := [];
    var i: nat := 2;
    PrependNothing(Segments(buff, totalLen, 2));
    while i <= totalLen
      invariant 2 <= i
      invariant Segments(buff, totalLen, 2) == Prepend(parts, Segments(buff, totalLen, i))
      decreases totalLen + 1 - i
    {
      var curr := buff[i];
      if curr == IntegerTag {
        if buff[i + 1] >= 0x80 {
          assert Segments(buff, totalLen, i) == Err(LongFormLength);
          return Err(LongFormLength);
        }
        var segmentLength: nat := buff[i + 1];
        var end := i + 2 + segmentLength;
        var start := SkipLeadingZeros(buff, i + 2, end);
        var slice := buff[start..Min(end, |buff|)];
        ghost var next := Segments(buff, totalLen, i + segmentLength + 1);
        SegmentsAtInteger(buff, totalLen, i);
        assert Segments(buff, totalLen, i) == Prepend([slice], next);
        PrependAssoc(parts, [slice], next);
        parts := parts + [slice];
        i := i + segmentLength;
      } else {
        SegmentsSkip(buff, totalLen, i);
      }
      i := i + 1;
    }
    assert Segments(buff, totalLen, i) == Ok([]) && parts + [] == parts;
    return Ok(Flatten(parts));
  }

  // ---- properties ----

  /** A short-form `SEQUENCE { INTEGER r, INTEGER s }` with the given contents. */
  function DerSequence(r: seq<byte>, s: seq<byte>): seq<byte>
    requires 4 + |r| + |s| < 0x80
  {
    [SequenceTag, 4 + |r| + |s|, IntegerTag, |r|] + r + [IntegerTag, |s|] + s
  }

  /** A signature that does not start with the SEQUENCE tag is returned unchanged. */
  lemma RawSignaturePassesThrough(b: seq<byte>)
    requires b == [] || b[0] != SequenceTag
    ensures DerToRaw(b) == Ok(b)
  {
  }

  /** A SEQUENCE whose outer length byte disagrees with the buffer length throws. */
  lemma OuterLengthChecked(b: seq<byte>)
    requires |b| > 0 && b[0] == SequenceTag && (|b| < 2 || |b| != b[1] as int + 2)
    ensures DerToRaw(b) == Err(LengthMismatch)
  {
  }

  /** A first INTEGER whose length byte has its high bit set (long form) throws. */
  lemma LongFormIntegerRejected(b: seq<byte>)
    requires |b| >= 4 && b[0] == SequenceTag && |b| == b[1] as int + 2
    requires b[2] == IntegerTag && b[3] >= 0x80
    ensures DerToRaw(b) == Err(LongFormLength)
  {
  }

  /**
   * So does a second INTEGER with a long-form length, after a short first one
   * that does not end in 0x02, whatever follows it.
   */
  lemma LongFormSecondIntegerRejected(r: seq<byte>, longLen: byte, rest: seq<byte>)
    requires |r| < 0x80 && longLen >= 0x80 && 4 + |r| + |rest| < 0x100
    requires r == [] || r[|r| - 1] != IntegerTag
    ensures DerToRaw([SequenceTag, 4 + |r| + |rest|, IntegerTag, |r|] + r + [IntegerTag, longLen] + rest)
         == Err(LongFormLength)
  {
    var b: seq<byte> := [SequenceTag, 4 + |r| + |rest|, IntegerTag, |r|] + r + [IntegerTag, longLen] + rest;
    var t: nat := 4 + |r| + |rest|;
    assert b[4 + |r|] == IntegerTag && b[5 + |r|] == longLen;
    assert |r| > 0 ==> b[3 + |r|] == r[|r| - 1];
    assert Segments(b, t, 4 + |r|) == Err(LongFormLength);
    SegmentsSkip(b, t, 3 + |r|);
    SegmentsAtInteger(b, t, 2);
  }

  /** Where the parts of `DerSequence(r, s)` lie. */
  lemma DerSequenceLayout(r: seq<byte>, s: seq<byte>)
    requires 4 + |r| + |s| < 0x80
    ensures var b := DerSequence(r, s); var si := 6 + |r|;
      && |b| == 6 + |r| + |s| && b[0] == SequenceTag && b[1] as int == 4 + |r| + |s|
      && b[2] == IntegerTag && b[3] as int == |r| && b[4..4 + |r|] == r
      && b[si - 2] == IntegerTag && b[si - 1] as int == |s| && b[si..si + |s|] == s
      && (|r| > 0 ==> b[3 + |r|] == r[|r| - 1])
  {
    var b := DerSequence(r, s);
    var head: seq<byte> := [SequenceTag, 4 + |r| + |s|, IntegerTag, |r|];
    var mid: seq<byte> := [IntegerTag, |s|];
    assert b == head + r + mid + s;
    assert b[4..4 + |r|] == r;
    assert b[6 + |r|..] == s;
  }

  /**
   * For a well-formed short-form SEQUENCE of two INTEGERs whose first content does
   * not end in 0x02, the output is both contents, leading zeros stripped, in order.
   */
  lemma WellFormedPairDecodes(r: seq<byte>, s: seq<byte>)
    requires 4 + |r| + |s| < 0x80
    requires r == [] || r[|r| - 1] != IntegerTag
    ensures DerToRaw(DerSequence(r, s)) == Ok(StripLeadingZeros(r) + StripLeadingZeros(s))
  {
    var b := DerSequence(r, s);
    var t: nat := 4 + |r| + |s|;
    var sr, ss := StripLeadingZeros(r), StripLeadingZeros(s);
    DerSequenceLayout(r, s);
    SecondIntegerScanned(r, s);
    // between the two: the resume point is the last byte of r (or r's length byte)
    SegmentsSkip(b, t, 3 + |r|);
    assert Segments(b, t, 3 + |r|) == Ok([ss]);
    SegmentsAtInteger(b, t, 2);
    assert b[4..Min(4 + |r|, |b|)] == r;
    assert Segments(b, t, 2) == Prepend([sr], Ok([ss]));
    assert [sr] + [ss] == [sr, ss];
    FlattenPair(sr, ss);
  }

  lemma FlattenPair(x: seq<byte>, y: seq<byte>)
    ensures Flatten([x, y]) == x + y
  {
    assert [x, y][1..] == [y];
    assert Flatten([y]) == y + Flatten([]);
  }

  /** The scan from the second INTEGER tag finds `s` and then stops past `totalLen`. */
  lemma SecondIntegerScanned(r: seq<byte>, s: seq<byte>)
    requires 4 + |r| + |s| < 0x80
    ensures Segments(DerSequence(r, s), 4 + |r| + |s|, 4 + |r|) == Ok([StripLeadingZeros(s)])
  {
    var b := DerSequence(r, s);
    var t: nat := 4 + |r| + |s|;
    var si := 6 + |r|;
    DerSequenceLayout(r, s);
    assert Segments(b, t, si + |s| - 1) == Ok([]);
    SegmentsAtInteger(b, t, si - 2);
    assert b[si..Min(si + |s|, |b|)] == s;
    assert Segments(b, t, si - 2) == Prepend([StripLeadingZeros(s)], Ok([]));
    assert [StripLeadingZeros(s)] + [] == [StripLeadingZeros(s)];
  }

  /**
   * As written, the scan resumes at the last content byte of an INTEGER rather
   * than at the next tag, so an `r` ending in 0x02 makes that byte read as a tag:
   * here r = [1, 2] and s = [5] come out as [1, 2, 1, 5], not [1, 2, 5].
   */
  lemma LastByteTwoMisreadAsTag()
    ensures DerToRaw([0x30, 7, 2, 2, 1, 2, 2, 1, 5]) == Ok([1, 2, 1, 5])
    ensures DerSequence([1, 2], [5]) == [0x30, 7, 2, 2, 1, 2, 2, 1, 5]
  {
    var b: seq<byte> := [0x30, 7, 2, 2, 1, 2, 2, 1, 5];
    DerSequenceLayout([1, 2], [5]);
    assert DerSequence([1, 2], [5]) == b;
    assert Segments(b, 7, 8) == Ok([]);
    SegmentsAtInteger(b, 7, 5);
    assert b[7..Min(9, 9)] == [1, 5];
    assert StripLeadingZeros([1, 5]) == [1, 5];
    assert Segments(b, 7, 5) == Prepend([[1, 5]], Ok([]));
    assert [[1, 5]] + [] == [[1, 5]];
    SegmentsAtInteger(b, 7, 2);
    assert b[4..Min(6, 9)] == [1, 2];
    assert StripLeadingZeros([1, 2]) == [1, 2];
    assert b[2] == 2 && b[3] == 2;
    assert Segments(b, 7, 2) == Prepend([[1, 2]], Ok([[1, 5]]));
    assert [[1, 2]] + [[1, 5]] == [[1, 2], [1, 5]];
    assert Flatten([[1, 2], [1, 5]]) == [1, 2, 1, 5];
    assert DerToRaw(b) == Ok(Flatten([[1, 2], [1, 5]]));
  }

  /**
   * The DER content of a non-negative integer given as minimal big-endian bytes:
   * a 0x00 is put in front when the high bit of the first byte is set.
   */
  function DerIntegerContent(x: seq<byte>): (c: seq<byte>)
    requires |x| > 0
  {
    if x[0] >= 0x80 then [0] + x else x
  }

  /**
   * Round trip: DER-encoding a pair (r, s) of minimal big-endian integers and
   * converting it back gives `r ‖ s`, as long as `r` does not end in 0x02.
   */
  lemma DerRoundTrip(r: seq<byte>, s: seq<byte>)
    requires |r| > 0 && |s| > 0 && r[0] != 0 && s[0] != 0
    requires 6 + |r| + |s| < 0x80
    requires r[|r| - 1] != IntegerTag
    ensures DerToRaw(DerSequence(DerIntegerContent(r), DerIntegerContent(s))) == Ok(r + s)
  {
    var rc, sc := DerIntegerContent(r), DerIntegerContent(s);
    assert rc[|rc| - 1] == r[|r| - 1];
    WellFormedPairDecodes(rc, sc);
    assert StripLeadingZeros(r) == r;
    assert StripLeadingZeros(s) == s;
    if r[0] >= 0x80 { assert rc[1..] == r; }
    if s[0] >= 0x80 { assert sc[1..] == s; }
  }

  // ---- the scan as evidently intended ----

  /**
   * The scan resuming after an INTEGER's content (`i + 2 + len`), where the
   * next tag of a well-formed SEQUENCE sits.
   */
  function IntendedSegments(b: seq<byte>, totalLen: nat, i: nat): Result<seq<seq<byte>>, DerError>
    requires |b| == totalLen + 2
    decreases |b| - i
  {
    if i > totalLen then Ok([])
    else if b[i] != IntegerTag then IntendedSegments(b, totalLen, i + 1)
    else if b[i + 1] >= 0x80 then Err(LongFormLength)
    else
      var len := b[i + 1];
      var content := b[i + 2 .. Min(i + 2 + len, |b|)];
      Prepend([StripLeadingZeros(content)], IntendedSegments(b, totalLen, i + 2 + len))
  }

  /** `parseDerSignature` with the intended resume point. */
  function IntendedDerToRaw(b: seq<byte>): Result<seq<byte>, DerError> {
    if |b| == 0 || b[0] != SequenceTag then Ok(b)
    else if |b| < 2 || |b| != b[1] as int + 2 then Err(LengthMismatch)
    else
      match IntendedSegments(b, b[1], 2)
      case Ok(parts) => Ok(Flatten(parts))
      case Err(e) => Err(e)
  }

  /** With the intended resume point every well-formed short-form pair decodes, whatever its bytes. */
  lemma IntendedPairDecodes(r: seq<byte>, s: seq<byte>)
    requires 4 + |r| + |s| < 0x80
    ensures IntendedDerToRaw(DerSequence(r, s)) == Ok(StripLeadingZeros(r) + StripLeadingZeros(s))
  {
    var b := DerSequence(r, s);
    var t: nat := 4 + |r| + |s|;
    var sr, ss := StripLeadingZeros(r), StripLeadingZeros(s);
    DerSequenceLayout(r, s);
    IntendedSecondInteger(r, s);
    assert b[4..Min(4 + |r|, |b|)] == r;
    assert IntendedSegments(b, t, 2) == Prepend([sr], Ok([ss]));
    assert [sr] + [ss] == [sr, ss];
    FlattenPair(sr, ss);
  }

  /** The intended scan, resumed after the first INTEGER, reads the second and stops. */
  lemma IntendedSecondInteger(r: seq<byte>, s: seq<byte>)
    requires 4 + |r| + |s| < 0x80
    ensures IntendedSegments(DerSequence(r, s), 4 + |r| + |s|, 4 + |r|) == Ok([StripLeadingZeros(s)])
  {
    var b := DerSequence(r, s);
    var t: nat := 4 + |r| + |s|;
    var si := 6 + |r|;
    DerSequenceLayout(r, s);
    var rest := IntendedSegments(b, t, si + |s|);
    assert rest == Ok([]);
    IntendedSegmentAt(b, t, si - 2);
    var ss := StripLeadingZeros(s);
    assert IntendedSegments(b, t, si - 2) == Prepend([ss], rest);
    assert [ss] + [] == [ss];
  }

  /** One step of the intended scan at an INTEGER whose content lies inside the buffer. */
  lemma IntendedSegmentAt(b: seq<byte>, totalLen: nat, i: nat)
    requires |b| == totalLen + 2 && i <= totalLen
    requires b[i] == IntegerTag && b[i + 1] < 0x80 && i + 2 + b[i + 1] <= |b|
    ensures IntendedSegments(b, totalLen, i)
      == Prepend([StripLeadingZeros(b[i + 2 .. i + 2 + b[i + 1]])], IntendedSegments(b, totalLen, i + 2 + b[i + 1]))
  {
    assert Min(i + 2 + b[i + 1], |b|) == i + 2 + b[i + 1];
  }

  /** Round trip for every pair of minimal big-endian integers, 0x02 endings included. */
  lemma IntendedDerRoundTrip(r: seq<byte>, s: seq<byte>)
    requires |r| > 0 && |s| > 0 && r[0] != 0 && s[0] != 0
    requires 6 + |r| + |s| < 0x80
    ensures IntendedDerToRaw(DerSequence(DerIntegerContent(r), DerIntegerContent(s))) == Ok(r + s)
  {
    var rc, sc := DerIntegerContent(r), DerIntegerContent(s);
    IntendedPairDecodes(rc, sc);
    assert StripLeadingZeros(r) == r;
    assert StripLeadingZeros(s) == s;
    if r[0] >= 0x80 { assert rc[1..] == r; }
    if s[0] >= 0x80 { assert sc[1..] == s; }
  }

  /** On the buffer the code misreads, the intended scan gives `r ‖ s`. */
  lemma IntendedReadsPastLastByte()
    ensures IntendedDerToRaw([0x30, 7, 2, 2, 1, 2, 2, 1, 5]) == Ok([1, 2, 5])
  {
    IntendedPairDecodes([1, 2], [5]);
    assert DerSequence([1, 2], [5]) == [0x30, 7, 2, 2, 1, 2, 2, 1, 5];
    assert StripLeadingZeros([1, 2]) == [1, 2] && StripLeadingZeros([5]) == [5];
    assert [1, 2] + [5] == [1, 2, 5];
  }
}
