/** Frame checks of the serial IMUs. */
module ImuChecks {
  import opened CrcPolynomial
  import opened Crc
  import opened RmdTypes

  const XSENS_LENGTH: nat := 50
  const HIPNUC_LENGTH: nat := 82

  /** The identifiers of the three data blocks of a frame. */
  ghost predicate HasXsensIds(frame: seq<Byte>)
    requires |frame| >= XSENS_LENGTH
  {
    && (frame[4..7] == [0x20, 0x10, 0x10] || frame[4..7] == [0x20, 0x30, 0x0c])
    && frame[19..22] == [0x40, 0x20, 0x0c]
    && frame[34..37] == [0x80, 0x20, 0x0c]
  }

  predicate XsensIdsValid(frame: seq<Byte>)
    requires |frame| >= XSENS_LENGTH
  {
    && ((frame[4] == 0x20 && frame[5] == 0x10 && frame[6] == 0x10) ||
        (frame[4] == 0x20 && frame[5] == 0x30 && frame[6] == 0x0c))
    && frame[19] == 0x40 && frame[20] == 0x20 && frame[21] == 0x0c
    && frame[34] == 0x80 && frame[35] == 0x20 && frame[36] == 0x0c
  }

  function Sum(bytes: seq<Byte>): nat {
    if |bytes| == 0 then 0 else Sum(bytes[..|bytes| - 1]) + bytes[|bytes| - 1]
  }

  lemma {:induction false} SumAppend(a: seq<Byte>, b: seq<Byte>)
    ensures Sum(a + b) == Sum(a) + Sum(b)
  {
    if |b| == 0 {
      assert a + b == a;
    } else {
      SumAppend(a, b[..|b| - 1]);
      assert (a + b)[..|a + b| - 1] == a + b[..|b| - 1];
    }
  }

  lemma SumAtLeast(bytes: seq<Byte>, i: nat)
    requires i < |bytes|
    ensures Sum(bytes) >= bytes[i] + Sum(bytes[i + 1..])
  {
    assert bytes == (bytes[..i] + [bytes[i]]) + bytes[i + 1..];
    SumAppend(bytes[..i] + [bytes[i]], bytes[i + 1..]);
    SumAppend(bytes[..i], [bytes[i]]);
  }

  lemma XsensIdBytes(frame: seq<Byte>)
    requires |frame| >= XSENS_LENGTH
    ensures XsensIdsValid(frame) <==> HasXsensIds(frame)
  {
    assert frame[4..7] == [frame[4], frame[5], frame[6]];
    assert frame[19..22] == [frame[19], frame[20], frame[21]];
    assert frame[34..37] == [frame[34], frame[35], frame[36]];
  }

  /** The identifier bytes alone sum to more than 0xff, so the checksum is always negated. */
  lemma IdsForceNegation(frame: seq<Byte>)
    requires |frame| >= XSENS_LENGTH && HasXsensIds(frame)
    ensures Sum(frame[1..49]) > 0xff
  {
    XsensIdBytes(frame);
    var s := frame[1..49];
    SumAtLeast(s, 3);
    assert s[3] == frame[4];
    assert s[4..][14] == frame[19];
    SumAtLeast(s[4..], 14);
    assert s[4..][15..] == s[19..];
    assert s[19..][14] == frame[34];
    SumAtLeast(s[19..], 14);
    assert s[19..][15..] == s[34..];
    assert s[34..][0] == frame[35];
    SumAtLeast(s[34..], 0);
  }

  ghost predicate XsensValid(frame: seq<Byte>)
    requires |frame| >= XSENS_LENGTH
  {
    HasXsensIds(frame) && Sum(frame[1..50]) % 0x100 == 0
  }

  /** On frames with valid identifiers the check is: bytes 1 to 49 sum to a multiple of 256. */
  method ValidXsens(frame: seq<Byte>) returns (ok: bool)
    requires |frame| >= XSENS_LENGTH
    ensures ok <==> XsensValid(frame)
  {
    assert XsensIdsValid(frame) <==> HasXsensIds(frame) by {
      XsensIdBytes(frame);
    }
    if !XsensIdsValid(frame) {
      return false;
    }
    var sum: int := 0;
    for i := 1 to 49
      invariant sum == Sum(frame[1..i])
    {
      assert frame[1..i + 1] == frame[1..i] + [frame[i]];
      sum := sum + frame[i];
    }
    ghost var total := sum;
    if sum > 0xff {
      sum := -sum - 1;   // ~sum
      sum := sum + 1;
    }
    sum := sum % 0x100;  // sum & 0xff
    IdsForceNegation(frame);
    assert frame[1..50] == frame[1..49] + [frame[49]];
    assert Sum(frame[1..50]) == total + frame[49];
    return sum == frame[49];
  }

  /** The bytes the HiPNUC checksum covers: everything but the checksum itself. */
  function Covered(frame: seq<Byte>): seq<Byte>
    requires |frame| >= HIPNUC_LENGTH
  {
    frame[..4] + frame[6..82]
  }

  /** The CRC of the covered bytes, from an empty register, is the number stored in bytes 4 and 5. */
  ghost predicate HiPNUCValid(frame: seq<Byte>)
    requires |frame| >= HIPNUC_LENGTH
  {
    Number(CrcOf(seq(16, _ => false), Covered(frame))) == frame[4] as int + 0x100 * frame[5] as int
  }

  lemma StoredCrc(crc: Register, low: Byte, high: Byte)
    ensures crc == Uint16Le(low, high) <==> Number(crc) == low + 0x100 * high
  {
    hide Uint16Le, Number;
    Uint16LeIs(low, high);
    if Number(crc) == low + 0x100 * high {
      NumberInjective(crc, Uint16Le(low, high));
    }
  }

  method ValidHiPNUC(frame: seq<Byte>) returns (ok: bool)
    requires |frame| >= HIPNUC_LENGTH
    ensures ok <==> HiPNUCValid(frame)
  {
    var crc := Zero();
    crc := CrcUpdate(crc, frame[..4]);
    crc := CrcUpdate(crc, frame[6..82]);
    CrcComposes(Zero(), frame[..4], frame[6..82]);
    StoredCrc(crc, frame[4], frame[5]);
    assert Zero() == seq(16, _ => false);
    return crc == Uint16Le(frame[4], frame[5]);
  }

  lemma CrcIs(r: Register, message: seq<Byte>)
    ensures CrcOf(r, message) == CrcBits(r, MessageBits(message))
  {
  }

  /** A burst of at most sixteen bits in the covered bytes of a valid frame is always noticed. */
  lemma BurstInvalidatesFrame(good: seq<Byte>, bad: seq<Byte>, start: nat)
    requires |good| == |bad| == HIPNUC_LENGTH && HiPNUCValid(good)
    requires good[4] == bad[4] && good[5] == bad[5]
    requires DifferByBurst(MessageBits(Covered(good)), MessageBits(Covered(bad)), start)
    ensures !HiPNUCValid(bad)
  {
    var none: Register := seq(16, _ => false);
    hide CrcOf, Number;
    if HiPNUCValid(bad) {
      NumberInjective(CrcOf(none, Covered(good)), CrcOf(none, Covered(bad)));
    }
    CrcIs(none, Covered(good));
    CrcIs(none, Covered(bad));
    BurstDetected(none, MessageBits(Covered(good)), MessageBits(Covered(bad)), start);
  }

  /** One wrong byte among bytes 1 to 49 of a valid Xsens frame is always noticed. */
  lemma WrongByteInvalidatesXsens(good: seq<Byte>, k: nat, wrong: Byte)
    requires |good| == XSENS_LENGTH && XsensValid(good) && 1 <= k < 50 && wrong != good[k]
    ensures !XsensValid(good[k := wrong])
  {
    var bad := good[k := wrong];
    var a, b := good[1..k], good[k + 1..50];
    assert good[1..50] == a + [good[k]] + b;
    assert bad[1..50] == a + [wrong] + b;
    SumAppend(a + [good[k]], b);
    SumAppend(a, [good[k]]);
    SumAppend(a + [wrong], b);
    SumAppend(a, [wrong]);
    SumOfOne(good[k]);
    SumOfOne(wrong);
    hide Sum;
    SameIdsMeansSum(bad);
    OneByteShifts(Sum(good[1..50]), good[k], wrong);
  }

  lemma SumOfOne(b: Byte)
    ensures Sum([b]) == b
  {
    assert [b][..0] == [];
  }

  lemma SameIdsMeansSum(frame: seq<Byte>)
    requires |frame| == XSENS_LENGTH
    ensures XsensValid(frame) ==> Sum(frame[1..50]) % 0x100 == 0
  {
    hide HasXsensIds;
  }

  lemma OneByteShifts(sum: int, b: Byte, wrong: Byte)
    requires sum % 0x100 == 0 && wrong != b
    ensures (sum - b + wrong) % 0x100 != 0
  {
  }
}

/** The byte framer of readLoop: collects frames that start with a two-byte header. */
module Framer {
  import opened Crc
  import opened ImuChecks
  import opened RmdTypes

  datatype Protocol = Protocol(frameLength: nat, header0: Byte, header1: Byte) {
    ghost predicate Valid() {
      2 < frameLength <= 128
    }
  }

  const XSENS := Protocol(XSENS_LENGTH, 0xfa, 0xff)
  const HIPNUC := Protocol(HIPNUC_LENGTH, 0x5a, 0xa5)

  // ----- the framer byte by byte

  /** The bytes collected so far, and the frames completed. */
  datatype Progress = Progress(pending: seq<Byte>, frames: seq<seq<Byte>>)

  function FeedByte(p: Protocol, s: Progress, b: Byte): Progress {
    if |s.pending| == 0 then
      if b != p.header0 then s else s.(pending := [b])
    else if |s.pending| == 1 then
      if b != p.header1 then s.(pending := if b == p.header0 then [b] else [])
      else s.(pending := s.pending + [b])
    else
      var frame := s.pending + [b];
      if |frame| == p.frameLength then Progress([], s.frames + [frame]) else s.(pending := frame)
  }

  function Feed(p: Protocol, s: Progress, input: seq<Byte>): Progress {
    if |input| == 0 then s else FeedByte(p, Feed(p, s, input[..|input| - 1]), input[|input| - 1])
  }

  /** How the stream is cut into reads does not matter. */
  lemma {:induction false} FeedAppend(p: Protocol, s: Progress, x: seq<Byte>, y: seq<Byte>)
    ensures Feed(p, s, x + y) == Feed(p, Feed(p, s, x), y)
  {
    if |y| == 0 {
      assert x + y == x;
    } else {
      FeedAppend(p, s, x, y[..|y| - 1]);
      assert (x + y)[..|x + y| - 1] == x + y[..|y| - 1];
    }
  }

  // ----- the reference: a greedy scan for the leftmost header

  ghost predicate HeaderAt(p: Protocol, s: seq<Byte>, i: nat) {
    i + 1 < |s| && s[i] == p.header0 && s[i + 1] == p.header1
  }

  ghost predicate HeaderFree(p: Protocol, s: seq<Byte>) {
    forall i: nat :: !HeaderAt(p, s, i)
  }

  ghost predicate FirstHeader(p: Protocol, s: seq<Byte>, i: nat) {
    HeaderAt(p, s, i) && forall j: nat :: j < i ==> !HeaderAt(p, s, j)
  }

  /** `starts` are the places where a scan from the left, resuming after each frame, finds
      headers followed by enough bytes. */
  ghost predicate IsScan(p: Protocol, s: seq<Byte>, from: nat, starts: seq<nat>)
    requires p.Valid() && from <= |s|
    decreases |starts|
  {
    if starts == [] then
      HeaderFree(p, s[from..]) ||
      exists i: nat :: FirstHeader(p, s[from..], i) && from + i + p.frameLength > |s|
    else
      from <= starts[0] && FirstHeader(p, s[from..], starts[0] - from) && starts[0] + p.frameLength <= |s| &&
      IsScan(p, s, starts[0] + p.frameLength, starts[1..])
  }

  /** The frames cut out of the stream at the given places. */
  function Cut(p: Protocol, s: seq<Byte>, starts: seq<nat>): seq<seq<Byte>>
    requires forall k :: 0 <= k < |starts| ==> starts[k] + p.frameLength <= |s|
  {
    var length: nat := p.frameLength;
    seq(|starts|, k requires 0 <= k < |starts| => s[starts[k]..starts[k] + length])
  }

  // ----- the framer is the scan

  /** Before a header is seen only the last byte is remembered, if it could start one. */
  lemma {:induction false} FeedHeaderFree(p: Protocol, frames: seq<seq<Byte>>, x: seq<Byte>)
    requires HeaderFree(p, x)
    ensures Feed(p, Progress([], frames), x)
            == Progress(if |x| > 0 && x[|x| - 1] == p.header0 then [p.header0] else [], frames)
  {
    if |x| > 0 {
      var y := x[..|x| - 1];
      assert forall i: nat :: HeaderAt(p, y, i) ==> HeaderAt(p, x, i);
      FeedHeaderFree(p, frames, y);
      if |y| > 0 {
        assert !HeaderAt(p, x, |y| - 1);
      }
    }
  }

  /** From the header on, bytes are collected until the frame is full. */
  lemma {:induction false} FeedBody(p: Protocol, frames: seq<seq<Byte>>, start: seq<Byte>, x: seq<Byte>)
    requires p.Valid() && 2 <= |start| < p.frameLength && |start| + |x| <= p.frameLength
    ensures Feed(p, Progress(start, frames), x)
            == if |start| + |x| == p.frameLength then Progress([], frames + [start + x]) else Progress(start + x, frames)
  {
    if |x| == 0 {
      assert start + x == start;
    } else {
      var y := x[..|x| - 1];
      FeedBody(p, frames, start, y);
      assert start + x == (start + y) + [x[|x| - 1]];
    }
  }

  /** Up to and including the first header nothing is emitted and the header is pending. */
  lemma FeedToHeader(p: Protocol, frames: seq<seq<Byte>>, x: seq<Byte>, i: nat)
    requires FirstHeader(p, x, i)
    ensures Feed(p, Progress([], frames), x[..i + 2]) == Progress([p.header0, p.header1], frames)
  {
    var a := x[..i + 1];
    forall j: nat ensures !HeaderAt(p, a, j) {
      assert HeaderAt(p, a, j) ==> HeaderAt(p, x, j);
    }
    FeedHeaderFree(p, frames, a);
    assert x[..i + 2][..i + 1] == a;
  }

  /** One whole frame: the gap before it, then the frame. */
  lemma FeedFrame(p: Protocol, frames: seq<seq<Byte>>, x: seq<Byte>, i: nat)
    requires p.Valid() && FirstHeader(p, x, i) && i + p.frameLength <= |x|
    ensures Feed(p, Progress([], frames), x[..i + p.frameLength])
            == Progress([], frames + [x[i..i + p.frameLength]])
  {
    var head, body := x[..i + 2], x[i + 2..i + p.frameLength];
    assert x[..i + p.frameLength] == head + body;
    FeedAppend(p, Progress([], frames), head, body);
    FeedToHeader(p, frames, x, i);
    FeedBody(p, frames, [p.header0, p.header1], body);
    assert x[i..i + p.frameLength] == [p.header0, p.header1] + body;
  }

  lemma FeedOneFrame(p: Protocol, s: seq<Byte>, from: nat, start: nat, frames: seq<seq<Byte>>)
    requires p.Valid() && from <= start && start + p.frameLength <= |s| && FirstHeader(p, s[from..], start - from)
    ensures Feed(p, Progress([], frames), s[from..])
            == Feed(p, Progress([], frames + [s[start..start + p.frameLength]]), s[start + p.frameLength..])
  {
    var x, k := s[from..], start - from + p.frameLength;
    FeedFrame(p, frames, x, start - from);
    assert x[start - from..k] == s[start..start + p.frameLength];
    assert x[k..] == s[start + p.frameLength..];
    assert x == x[..k] + x[k..];
    FeedAppend(p, Progress([], frames), x[..k], x[k..]);
  }

  lemma FeedTail(p: Protocol, s: seq<Byte>, from: nat, frames: seq<seq<Byte>>)
    requires p.Valid() && from <= |s| && IsScan(p, s, from, [])
    ensures var r := Feed(p, Progress([], frames), s[from..]);
            r.frames == frames && |r.pending| < p.frameLength
  {
    var x := s[from..];
    if HeaderFree(p, x) {
      FeedHeaderFree(p, frames, x);
    } else {
      var i: nat :| FirstHeader(p, x, i) && from + i + p.frameLength > |s|;
      assert x == x[..i + 2] + x[i + 2..];
      FeedAppend(p, Progress([], frames), x[..i + 2], x[i + 2..]);
      FeedToHeader(p, frames, x, i);
      FeedBody(p, frames, [p.header0, p.header1], x[i + 2..]);
    }
  }

  /** Frames found by a scan start with the header, follow one another and do not overlap. */
  lemma {:induction false} ScanIsOrdered(p: Protocol, s: seq<Byte>, from: nat, starts: seq<nat>, k: nat)
    requires p.Valid() && from <= |s| && IsScan(p, s, from, starts) && k < |starts|
    ensures from <= starts[k] && starts[k] + p.frameLength <= |s|
    ensures HeaderAt(p, s, starts[k])
    ensures forall j :: 0 <= j < k ==> starts[j] + p.frameLength <= starts[k]
    decreases |starts|
  {
    if k > 0 {
      var next := starts[0] + p.frameLength;
      ScanIsOrdered(p, s, next, starts[1..], k - 1);
      forall j | 0 <= j < k ensures starts[j] + p.frameLength <= starts[k] {
        if j > 0 {
          assert starts[1..][j - 1] == starts[j];
        }
      }
    }
  }

  /** The frames of a scan are what the framer emits; what is left pending is shorter than a
      frame. */
  lemma {:induction false} FramerIsScan(p: Protocol, s: seq<Byte>, from: nat, starts: seq<nat>, frames: seq<seq<Byte>>)
    requires p.Valid() && from <= |s| && IsScan(p, s, from, starts)
    requires forall k :: 0 <= k < |starts| ==> starts[k] + p.frameLength <= |s|
    ensures Feed(p, Progress([], frames), s[from..]).frames == frames + Cut(p, s, starts)
    ensures |Feed(p, Progress([], frames), s[from..]).pending| < p.frameLength
    decreases |starts|
  {
    hide Feed;
    if starts == [] {
      FeedTail(p, s, from, frames);
      assert frames + Cut(p, s, starts) == frames;
    } else {
      var next := starts[0] + p.frameLength;
      var frame := s[starts[0]..next];
      FeedOneFrame(p, s, from, starts[0], frames);
      FramerIsScan(p, s, next, starts[1..], frames + [frame]);
      assert frames + Cut(p, s, starts) == frames + [frame] + Cut(p, s, starts[1..]);
    }
  }

  /** Every stream has a scan. */
  lemma {:induction false} ScanExists(p: Protocol, s: seq<Byte>, from: nat) returns (starts: seq<nat>)
    requires p.Valid() && from <= |s|
    ensures IsScan(p, s, from, starts)
    decreases |s| - from
  {
    var x := s[from..];
    if HeaderFree(p, x) {
      starts := [];
    } else {
      var k: nat :| HeaderAt(p, x, k);
      var i := LeftmostHeader(p, x, k);
      if from + i + p.frameLength > |s| {
        starts := [];
      } else {
        var rest := ScanExists(p, s, from + i + p.frameLength);
        starts := [from + i] + rest;
        assert starts[1..] == rest;
      }
    }
  }

  lemma {:induction false} LeftmostHeader(p: Protocol, x: seq<Byte>, k: nat) returns (i: nat)
    requires HeaderAt(p, x, k)
    ensures FirstHeader(p, x, i)
    decreases k
  {
    if j: nat :| j < k && HeaderAt(p, x, j) {
      i := LeftmostHeader(p, x, j);
    } else {
      i := k;
    }
  }

  /** Whatever the stream and however it is read, the framer emits exactly the frames of the
      greedy scan: whole, in order, without overlap, each starting with the header. */
  lemma FramerRefinesScan(p: Protocol, s: seq<Byte>) returns (starts: seq<nat>)
    requires p.Valid()
    ensures IsScan(p, s, 0, starts)
    ensures forall k :: 0 <= k < |starts| ==> starts[k] + p.frameLength <= |s| && HeaderAt(p, s, starts[k])
    ensures forall j, k :: 0 <= j < k < |starts| ==> starts[j] + p.frameLength <= starts[k]
    ensures Feed(p, Progress([], []), s).frames == Cut(p, s, starts)
    ensures |Feed(p, Progress([], []), s).pending| < p.frameLength
  {
    starts := ScanExists(p, s, 0);
    forall k | 0 <= k < |starts|
      ensures starts[k] + p.frameLength <= |s| && HeaderAt(p, s, starts[k])
      ensures forall j :: 0 <= j < k ==> starts[j] + p.frameLength <= starts[k]
    {
      ScanIsOrdered(p, s, 0, starts, k);
    }
    assert s[0..] == s;
    FramerIsScan(p, s, 0, starts, []);
    assert [] + Cut(p, s, starts) == Cut(p, s, starts);
  }

  // ----- clean streams

  /** Gaps and frames in turn. */
  function Interleave(gaps: seq<seq<Byte>>, frames: seq<seq<Byte>>): seq<Byte>
    requires |gaps| == |frames| + 1
  {
    if frames == [] then gaps[0]
    else Interleave(gaps[..|gaps| - 1], frames[..|frames| - 1]) + frames[|frames| - 1] + gaps[|gaps| - 1]
  }

  lemma FeedSingle(p: Protocol, s: Progress, b: Byte)
    ensures Feed(p, s, [b]) == FeedByte(p, s, b)
  {
    assert Feed(p, s, [b][..0]) == s;
  }

  lemma GapThenFrame(p: Protocol, done: seq<seq<Byte>>, pending: seq<Byte>, frame: seq<Byte>)
    requires p.Valid() && p.header0 != p.header1
    requires pending == [] || pending == [p.header0]
    requires |frame| == p.frameLength && frame[0] == p.header0 && frame[1] == p.header1
    ensures Feed(p, Progress(pending, done), frame) == Progress([], done + [frame])
  {
    var head, body := frame[..2], frame[2..];
    assert frame == head + body;
    FeedAppend(p, Progress(pending, done), head, body);
    var s := Progress(pending, done);
    assert head == [p.header0] + [p.header1];
    FeedSingle(p, s, p.header0);
    FeedAppend(p, s, [p.header0], [p.header1]);
    FeedSingle(p, Progress([p.header0], done), p.header1);
    assert [p.header0] + [p.header1] == [p.header0, p.header1];
    assert [p.header0, p.header1] + body == frame;
    FeedBody(p, done, [p.header0, p.header1], body);
  }

  /** Frames between gaps without a header come out exactly as they went in. */
  lemma {:induction false} CleanStreamDecodes(p: Protocol, gaps: seq<seq<Byte>>, frames: seq<seq<Byte>>)
    requires p.Valid() && p.header0 != p.header1 && |gaps| == |frames| + 1
    requires forall k :: 0 <= k < |gaps| ==> HeaderFree(p, gaps[k])
    requires forall k :: 0 <= k < |frames| ==>
               |frames[k]| == p.frameLength && frames[k][0] == p.header0 && frames[k][1] == p.header1
    ensures var r := Feed(p, Progress([], []), Interleave(gaps, frames));
            r.frames == frames && (r.pending == [] || r.pending == [p.header0])
    decreases |frames|
  {
    hide Feed, HeaderFree;
    if frames == [] {
      FeedHeaderFree(p, [], gaps[0]);
    } else {
      var n := |frames| - 1;
      CleanStreamDecodes(p, gaps[..|gaps| - 1], frames[..n]);
      var before := Interleave(gaps[..|gaps| - 1], frames[..n]);
      var pending := Feed(p, Progress([], []), before).pending;
      GapThenFrame(p, frames[..n], pending, frames[n]);
      assert frames[..n] + [frames[n]] == frames;
      FeedHeaderFree(p, frames, gaps[n + 1]);
      FeedAppend(p, Progress([], []), before, frames[n]);
      FeedAppend(p, Progress([], []), before + frames[n], gaps[n + 1]);
    }
  }

  // ----- the read loop

  class ReadLoop {
    const protocol: Protocol
    const frame: array<Byte>
    var frameIndex: nat
    ghost var received: seq<Byte>       // every byte read so far
    ghost var candidates: seq<seq<Byte>> // every complete frame handed to the decoder
    var published: seq<seq<Byte>>       // the candidates that passed the check

    /** The index of the next byte stays inside a frame, and a frame inside the buffer. */
    ghost predicate Shape()
      reads this
    {
      frame.Length == 128 && (protocol == XSENS || protocol == HIPNUC) && frameIndex < protocol.frameLength
    }

    ghost predicate Valid()
      reads this, frame
    {
      && Shape()
      && Feed(protocol, Progress([], []), received) == Progress(frame[..frameIndex], candidates)
      && published == Accepted(protocol, candidates)
    }

    constructor (p: Protocol)
      requires p == XSENS || p == HIPNUC
      ensures Valid() && protocol == p && received == [] && published == [] && fresh(frame)
    {
      protocol, frame, frameIndex := p, new Byte[128](_ => 0), 0;
      received, candidates, published := [], [], [];
    }

    /** One successful read: afterwards everything published is the accepted part of what the
        framer makes of all bytes received, however they were split into reads. */
    method Consume(input: seq<Byte>)
      requires Valid()
      modifies this, frame
      ensures Valid() && received == old(received) + input
      ensures published == Accepted(protocol, Feed(protocol, Progress([], []), old(received) + input).frames)
    {
      for i := 0 to |input|
        invariant Valid() && received == old(received) + input[..i]
      {
        TakeByte(input[i]);
        assert input[..i + 1] == input[..i] + [input[i]];
      }
      assert input[..|input|] == input;
    }

    method TakeByte(byte: Byte)
      requires Valid()
      modifies this, frame
      ensures Valid() && received == old(received) + [byte]
    {
      hide Feed, Accepted;
      FeedLast(protocol, received, byte);
      received := received + [byte];
      if frameIndex == 0 {
        if byte == protocol.header0 {
          frame[0] := byte;
          frameIndex := 1;
        }
      } else if frameIndex == 1 {
        if byte != protocol.header1 {
          frameIndex := if byte == protocol.header0 then 1 else 0;
          frame[0] := if byte == protocol.header0 then byte else 0;
        } else {
          frame[1] := byte;
          frameIndex := 2;
          assert frame[..2] == old(frame[..1]) + [byte];
        }
      } else {
        Store(byte);
      }
    }

    /** Appends to the frame being collected, and hands the frame on once it is full. */
    method Store(byte: Byte)
      requires Shape() && 2 <= frameIndex
      requires published == Accepted(protocol, candidates)
      modifies this`frameIndex, this`candidates, this`published, frame
      ensures Shape()
      ensures Progress(frame[..frameIndex], candidates)
              == FeedByte(protocol, Progress(old(frame[..frameIndex]), old(candidates)), byte)
      ensures published == Accepted(protocol, candidates)
    {
      hide Accepted, Passes;
      frame[frameIndex] := byte;
      frameIndex := frameIndex + 1;
      ghost var full := frame[..frameIndex];
      assert full == old(frame[..frameIndex]) + [byte];
      if frameIndex == protocol.frameLength {
        AcceptedGrows(protocol, candidates, full);
        candidates := candidates + [full];
        var ok := DecodeFrame();
        if ok {
          published := published + [frame[..protocol.frameLength]];
        }
        frameIndex := 0;
      }
    }

    method DecodeFrame() returns (ok: bool)
      requires frame.Length == 128 && (protocol == XSENS || protocol == HIPNUC)
      ensures ok <==> Passes(protocol, frame[..protocol.frameLength])
    {
      if protocol == XSENS {
        ok := ValidXsens(frame[..protocol.frameLength]);
      } else {
        ok := ValidHiPNUC(frame[..protocol.frameLength]);
      }
    }
  }

  /** What is published of a HiPNUC or Xsens stream: whole frames that begin with the header. */
  ghost predicate IsGood(p: Protocol, frame: seq<Byte>)
    requires p == XSENS || p == HIPNUC
  {
    if p == HIPNUC then |frame| == 82 && frame[..2] == [0x5a, 0xa5] && HiPNUCValid(frame)
    else |frame| == 50 && frame[..2] == [0xfa, 0xff] && XsensValid(frame)
  }

  ghost predicate HasShape(p: Protocol, frame: seq<Byte>) {
    |frame| == p.frameLength && |frame| >= 2 && frame[0] == p.header0 && frame[1] == p.header1
  }

  /** Everything collected begins with the header. */
  ghost predicate Shaped(p: Protocol, s: Progress) {
    && (forall f :: f in s.frames ==> HasShape(p, f))
    && (|s.pending| > 0 ==> s.pending[0] == p.header0)
    && (|s.pending| > 1 ==> s.pending[1] == p.header1)
  }

  lemma {:induction false} FramesAreShaped(p: Protocol, x: seq<Byte>)
    ensures Shaped(p, Feed(p, Progress([], []), x))
  {
    if |x| > 0 {
      FramesAreShaped(p, x[..|x| - 1]);
    }
  }

  lemma {:induction false} AcceptedIs(p: Protocol, frames: seq<seq<Byte>>)
    ensures forall f :: f in Accepted(p, frames) <==> f in frames && Passes(p, f)
    ensures (forall f :: f in frames ==> Passes(p, f)) ==> Accepted(p, frames) == frames
  {
    hide Passes;
    if frames != [] {
      var n := |frames| - 1;
      AcceptedIs(p, frames[..n]);
      assert frames == frames[..n] + [frames[n]];
    }
  }

  lemma GoodPasses(p: Protocol, frame: seq<Byte>)
    requires p == XSENS || p == HIPNUC
    ensures IsGood(p, frame) <==> HasShape(p, frame) && Passes(p, frame)
  {
    hide XsensValid, HiPNUCValid;
    if |frame| >= 2 {
      assert frame[..2] == [frame[0], frame[1]];
    }
  }

  /** No stream makes the loop publish anything but good frames. */
  lemma PublishedFramesAreGood(p: Protocol, stream: seq<Byte>, frame: seq<Byte>)
    requires p == XSENS || p == HIPNUC
    requires frame in Accepted(p, Feed(p, Progress([], []), stream).frames)
    ensures IsGood(p, frame)
  {
    hide Feed, Accepted, IsGood, Passes;
    FramesAreShaped(p, stream);
    AcceptedIs(p, Feed(p, Progress([], []), stream).frames);
    GoodPasses(p, frame);
  }

  /** And good frames in a clean stream are all published. */
  lemma CleanStreamIsPublished(p: Protocol, gaps: seq<seq<Byte>>, frames: seq<seq<Byte>>)
    requires p == XSENS || p == HIPNUC
    requires |gaps| == |frames| + 1 && forall k :: 0 <= k < |gaps| ==> HeaderFree(p, gaps[k])
    requires forall f :: f in frames ==> IsGood(p, f)
    ensures Accepted(p, Feed(p, Progress([], []), Interleave(gaps, frames)).frames) == frames
  {
    hide Feed, Accepted, IsGood, Passes, HeaderFree;
    forall f | f in frames ensures HasShape(p, f) && Passes(p, f) {
      GoodPasses(p, f);
    }
    assert forall k :: 0 <= k < |frames| ==> frames[k] in frames;
    CleanStreamDecodes(p, gaps, frames);
    AcceptedIs(p, frames);
  }

  lemma FeedLast(p: Protocol, x: seq<Byte>, b: Byte)
    ensures Feed(p, Progress([], []), x + [b]) == FeedByte(p, Feed(p, Progress([], []), x), b)
  {
    assert (x + [b])[..|x|] == x;
  }

  ghost predicate Passes(p: Protocol, frame: seq<Byte>) {
    (p == XSENS && |frame| >= XSENS_LENGTH && XsensValid(frame)) ||
    (p == HIPNUC && |frame| >= HIPNUC_LENGTH && HiPNUCValid(frame))
  }

  ghost function Accepted(p: Protocol, frames: seq<seq<Byte>>): seq<seq<Byte>> {
    if frames == [] then []
    else
      var last := frames[|frames| - 1];
      Accepted(p, frames[..|frames| - 1]) + (if Passes(p, last) then [last] else [])
  }

  lemma AcceptedGrows(p: Protocol, frames: seq<seq<Byte>>, frame: seq<Byte>)
    ensures Accepted(p, frames + [frame]) == Accepted(p, frames) + (if Passes(p, frame) then [frame] else [])
  {
    assert (frames + [frame])[..|frames|] == frames;
  }
}
