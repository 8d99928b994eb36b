/** The PMS7003 particulate-matter sensor: the frame scanner and decoder of
    `airshift_pms7003_get`, the additive frame checksum, and the fixed command
    frames sent to the sensor.

    A read fills a zero-initialised 128-byte array with the `n` bytes that
    arrived; the array and the count are kept apart here so that reads past
    the received bytes (which see zeros) and reads past the array (undefined
    behaviour in C) are both visible. */
module Pms7003 {
  import opened Results
  import opened Common

  const RECEIVE_BUFFER_SIZE: nat := 128
  const START_CHARACTER_1: byte := 0x42
  const START_CHARACTER_2: byte := 0x4D

  /** `sizeof(pms7003_data_t)`: fifteen 16-bit fields. This is the lookahead
      the scanner demands before it decodes. */
  const RECORD_SIZE: nat := 30

  /** A frame on the wire: marker, length, thirteen data words (30 bytes that
      the checksum covers) followed by the two checksum bytes. */
  const CHECKED_LENGTH: nat := 30
  const FRAME_SIZE: nat := 32

  /** `pms7003_data_t`: fifteen 16-bit fields, namely the frame length, three
      standard and three atmospheric concentrations, six particle counts, the
      reserved word and the checksum. */
  datatype PmsData = PmsData(
    frameLength: u16,
    pmSp1_0: u16, pmSp2_5: u16, pmSp10_0: u16,
    pmAe1_0: u16, pmAe2_5: u16, pmAe10_0: u16,
    raw0_3: u16, raw0_5: u16, raw1_0: u16, raw2_5: u16, raw5_0: u16, raw10_0: u16,
    reserved: u16,
    checksum: u16)

  /** The record after `memset(pms7003_data, 0, ...)`. */
  const ZERO: PmsData := PmsData(0, 0, 0, 0, 0, 0, 0, 0, 0, 0, 0, 0, 0, 0, 0)

  /** A read into the 128-byte array delivers at most the array length. */
  predicate WellFormedRead(read: UartRead) {
    read.Received? ==> |read.bytes| <= RECEIVE_BUFFER_SIZE
  }

  /** The 128-byte array after the read: the received bytes, then the zeros
      it was initialised with. */
  function ReceiveBuffer(received: seq<byte>): (buf: seq<byte>)
    requires |received| <= RECEIVE_BUFFER_SIZE
    ensures |buf| == RECEIVE_BUFFER_SIZE
    ensures buf[..|received|] == received
    ensures forall k :: 0 <= k < |received| ==> buf[k] == received[k]
    ensures forall k :: |received| <= k < RECEIVE_BUFFER_SIZE ==> buf[k] == 0
  {
    received + seq(RECEIVE_BUFFER_SIZE - |received|, _ => 0)
  }

  /** The start marker 0x42 0x4D at index i. */
  predicate MarkerAt(buf: seq<byte>, i: nat)
    requires i + 1 < |buf|
  {
    buf[i] == START_CHARACTER_1 && buf[i + 1] == START_CHARACTER_2
  }

  /** i is where a frame starts for a scan demanding `lookahead` bytes: the
      marker is there, enough bytes are left, and no earlier index has the
      marker. */
  predicate IsFirstStart(bytes: seq<byte>, i: nat, lookahead: nat)
    requires lookahead >= 2
  {
    && i + lookahead <= |bytes|
    && MarkerAt(bytes, i)
    && forall k: nat :: k < i ==> !MarkerAt(bytes, k)
  }

  // ---------------------------------------------------------------------------
  // Scanning

  /** How the scan loop ends: at a marker, at the lookahead check, or by
      running off the end of the count. */
  datatype ScanOutcome = Found(index: nat) | NotEnoughLeft(index: nat) | LoopEnded

  /** The loop `for (i = start; i < n; i++)`: first the check that at least
      `lookahead` bytes remain, then the marker test. */
  function Scan(buf: seq<byte>, n: nat, i: nat, lookahead: nat): (r: ScanOutcome)
    requires n <= |buf| && lookahead >= 2
    ensures r.Found? ==>
      && i <= r.index && r.index + lookahead <= n && MarkerAt(buf, r.index)
      && forall k: nat :: i <= k < r.index ==> !MarkerAt(buf, k)
    ensures r.NotEnoughLeft? ==>
      && i <= r.index < n && n < r.index + lookahead
      && forall k: nat :: i <= k < r.index ==> !MarkerAt(buf, k)
    ensures r.LoopEnded? ==> n <= i
    decreases n - i
  {
    if i >= n then LoopEnded
    else if n - i < lookahead then NotEnoughLeft(i)
    else if MarkerAt(buf, i) then Found(i)
    else Scan(buf, n, i + 1, lookahead)
  }

  /** A scan from the start finds the first frame start when one exists and
      otherwise stops at the lookahead check. */
  lemma ScanFindsFirst(buf: seq<byte>, n: nat, lookahead: nat)
    requires n <= |buf| && lookahead >= 2 && 0 < n
    ensures Scan(buf, n, 0, lookahead).Found? <==>
      exists i: nat :: i + lookahead <= n && MarkerAt(buf, i)
    ensures forall i: nat :: IsFirstStart(buf[..n], i, lookahead) ==> Scan(buf, n, 0, lookahead) == Found(i)
    ensures !Scan(buf, n, 0, lookahead).LoopEnded?
  {
    var r := Scan(buf, n, 0, lookahead);
    forall i | IsFirstStart(buf[..n], i, lookahead)
      ensures r == Found(i)
    {
      assert MarkerAt(buf, i);
      if r.Found? {
        assert !(r.index < i) by { assert MarkerAt(buf[..n], r.index); }
      }
    }
  }

  // ---------------------------------------------------------------------------
  // Decoding and the checksum

  /** The fields at their fixed offsets from the frame start. The reserved
      word (offsets 28 and 29) is never assigned and keeps its zero. */
  function DecodeFrame(frame: seq<byte>): PmsData
    requires |frame| >= FRAME_SIZE
  {
    PmsData(
      frameLength := MakeWord(frame[2], frame[3]),
      pmSp1_0 := MakeWord(frame[4], frame[5]),
      pmSp2_5 := MakeWord(frame[6], frame[7]),
      pmSp10_0 := MakeWord(frame[8], frame[9]),
      pmAe1_0 := MakeWord(frame[10], frame[11]),
      pmAe2_5 := MakeWord(frame[12], frame[13]),
      pmAe10_0 := MakeWord(frame[14], frame[15]),
      raw0_3 := MakeWord(frame[16], frame[17]),
      raw0_5 := MakeWord(frame[18], frame[19]),
      raw1_0 := MakeWord(frame[20], frame[21]),
      raw2_5 := MakeWord(frame[22], frame[23]),
      raw5_0 := MakeWord(frame[24], frame[25]),
      raw10_0 := MakeWord(frame[26], frame[27]),
      reserved := 0,
      checksum := MakeWord(frame[30], frame[31]))
  }

  /** A frame as the sensor sends it: the marker, every field big-endian,
      the checksum field last. */
  function EncodeFrame(d: PmsData): (frame: seq<byte>)
    ensures |frame| == FRAME_SIZE && MarkerAt(frame, 0)
  {
    [START_CHARACTER_1, START_CHARACTER_2]
    + WordBytes(d.frameLength)
    + WordBytes(d.pmSp1_0) + WordBytes(d.pmSp2_5) + WordBytes(d.pmSp10_0)
    + WordBytes(d.pmAe1_0) + WordBytes(d.pmAe2_5) + WordBytes(d.pmAe10_0)
    + WordBytes(d.raw0_3) + WordBytes(d.raw0_5) + WordBytes(d.raw1_0)
    + WordBytes(d.raw2_5) + WordBytes(d.raw5_0) + WordBytes(d.raw10_0)
    + WordBytes(d.reserved)
    + WordBytes(d.checksum)
  }

  /** Decoding a sensor frame recovers every field except the reserved word,
      which the decoder never reads. */
  lemma DecodeEncode(d: PmsData)
    ensures DecodeFrame(EncodeFrame(d)) == d.(reserved := 0)
  {
    var f := EncodeFrame(d);
    assert f[2..4] == WordBytes(d.frameLength);
    assert f[30..32] == WordBytes(d.checksum);
  }

  /** The sum of the bytes, accumulated front to back. */
  function Sum(s: seq<byte>): nat
  {
    if |s| == 0 then 0 else Sum(s[..|s| - 1]) + s[|s| - 1]
  }

  lemma {:induction false} SumBound(s: seq<byte>)
    ensures Sum(s) <= 255 * |s|
  {
    if |s| > 0 {
      SumBound(s[..|s| - 1]);
    }
  }

  /** Replacing one byte changes the sum by exactly the difference. */
  lemma {:induction false} SumUpdate(s: seq<byte>, k: nat, v: byte)
    requires k < |s|
    ensures Sum(s[k := v]) == Sum(s) - s[k] + v
  {
    var t := s[k := v];
    if k == |s| - 1 {
      assert t[..|t| - 1] == s[..|s| - 1];
    } else {
      assert t[..|t| - 1] == s[..|s| - 1][k := v];
      SumUpdate(s[..|s| - 1], k, v);
    }
  }

  /** The additive checksum: the byte sum in a 16-bit accumulator. */
  function Checksum(s: seq<byte>): u16
  {
    Sum(s) % 0x1_0000
  }

  /** The checksum loop of `airshift_pms7003_get`: a uint16_t accumulator
      that adds the 30 bytes from the frame start, wrapping as it goes. */
  method ComputeChecksum(buf: seq<byte>, i: nat) returns (calculated: u16)
    requires i + CHECKED_LENGTH <= |buf|
    ensures calculated == Sum(buf[i..i + CHECKED_LENGTH]) % 0x1_0000
  {
    calculated := 0;
    var x := i;
    while x < i + CHECKED_LENGTH
      invariant i <= x <= i + CHECKED_LENGTH
      invariant calculated == Sum(buf[i..x]) % 0x1_0000
    {
      assert buf[i..x + 1][..x - i] == buf[i..x];
      ghost var sum := Sum(buf[i..x]);
      assert Sum(buf[i..x + 1]) == sum + buf[x];
      assert (sum % 0x1_0000 + buf[x]) % 0x1_0000 == (sum + buf[x]) % 0x1_0000;
      calculated := (calculated + buf[x]) % 0x1_0000;
      x := x + 1;
    }
  }

  /** Any single changed byte among the checked bytes changes the checksum. */
  lemma ChecksumDetectsOneByte(s: seq<byte>, k: nat, v: byte)
    requires k < |s| && s[k] != v
    ensures Checksum(s[k := v]) != Checksum(s)
  {
    SumUpdate(s, k, v);
    var a, b := Sum(s), Sum(s[k := v]);
    var d := v - s[k];
    assert b == a + d && -256 < d < 256 && d != 0;
  }

  // ---------------------------------------------------------------------------
  // `airshift_pms7003_get` as written

  datatype PmsError = NoBytesRead | FrameNotFound

  /** How a call ends. `OutOfBounds` stands for the undefined behaviour of
      reading `read_buffer[index]` past the end of the 128-byte array. */
  datatype Status = Success | Failed(error: PmsError) | OutOfBounds(index: nat)

  /** The return code and the record the caller's pointer is left holding. */
  datatype Reading = Reading(status: Status, data: PmsData)

  /** What the model reads at the two indices past the 128-byte array. The
      source's behaviour there is undefined; only the checksum field can
      depend on them. */
  const PAST_END: seq<byte> := [0, 0]

  /** The thirteen fields at offsets 2 to 27 from index i of `bytes` are in
      `d`, and the reserved word is still zero. */
  predicate InBoundsFields(d: PmsData, bytes: seq<byte>, i: nat)
    requires i + 28 <= |bytes|
  {
    && d.frameLength == MakeWord(bytes[i + 2], bytes[i + 3])
    && d.pmSp1_0 == MakeWord(bytes[i + 4], bytes[i + 5])
    && d.pmSp2_5 == MakeWord(bytes[i + 6], bytes[i + 7])
    && d.pmSp10_0 == MakeWord(bytes[i + 8], bytes[i + 9])
    && d.pmAe1_0 == MakeWord(bytes[i + 10], bytes[i + 11])
    && d.pmAe2_5 == MakeWord(bytes[i + 12], bytes[i + 13])
    && d.pmAe10_0 == MakeWord(bytes[i + 14], bytes[i + 15])
    && d.raw0_3 == MakeWord(bytes[i + 16], bytes[i + 17])
    && d.raw0_5 == MakeWord(bytes[i + 18], bytes[i + 19])
    && d.raw1_0 == MakeWord(bytes[i + 20], bytes[i + 21])
    && d.raw2_5 == MakeWord(bytes[i + 22], bytes[i + 23])
    && d.raw5_0 == MakeWord(bytes[i + 24], bytes[i + 25])
    && d.raw10_0 == MakeWord(bytes[i + 26], bytes[i + 27])
    && d.reserved == 0
  }

  /** `airshift_pms7003_get` as written: the scan demands only
      `sizeof(pms7003_data_t)` = 30 bytes, yet the decoder reads offsets 30
      and 31; the computed checksum is only logged, never compared. On the
      over-read the record keeps the thirteen fields assigned before the
      access past the array. */
  function Get(read: UartRead): (r: Reading)
    requires WellFormedRead(read)
    ensures BytesRead(read) <= 0 ==> r == Reading(Failed(NoBytesRead), ZERO)
    ensures r.status.Failed? ==> r.data == ZERO
    ensures r.status.Success? ==>
      read.Received? && (exists i: nat ::
        && IsFirstStart(read.bytes, i, RECORD_SIZE)
        && i + FRAME_SIZE <= RECEIVE_BUFFER_SIZE
        && r.data == DecodeFrame(ReceiveBuffer(read.bytes)[i..i + FRAME_SIZE]))
    ensures r.status.OutOfBounds? ==> r.status.index == RECEIVE_BUFFER_SIZE
  {
    if BytesRead(read) <= 0 then Reading(Failed(NoBytesRead), ZERO)
    else
      var n := |read.bytes|;
      var buf := ReceiveBuffer(read.bytes);
      match Scan(buf, n, 0, RECORD_SIZE)
      case Found(i) =>
        assert buf[..n] == read.bytes;
        assert forall k: nat :: k < i ==> !MarkerAt(read.bytes, k) by {
          forall k: nat | k < i
            ensures !MarkerAt(read.bytes, k)
          {
            assert !MarkerAt(buf, k);
            assert read.bytes[k] == buf[k] && read.bytes[k + 1] == buf[k + 1];
          }
        }
        assert IsFirstStart(read.bytes, i, RECORD_SIZE);
        if i + FRAME_SIZE > RECEIVE_BUFFER_SIZE then
          var window := (buf + PAST_END)[i..i + FRAME_SIZE];
          assert forall k :: 0 <= k < 28 ==> window[k] == read.bytes[i + k];
          Reading(OutOfBounds(RECEIVE_BUFFER_SIZE), DecodeFrame(window))
        else Reading(Success, DecodeFrame(buf[i..i + FRAME_SIZE]))
      case NotEnoughLeft(_) => Reading(Failed(FrameNotFound), ZERO)
      case LoopEnded => Reading(Success, ZERO)
  }

  /** The call reaches the decoder (success, or the over-read) exactly when
      some index with 30 bytes left holds the marker; it never falls out of
      the loop into success without one. */
  lemma GetFindsMarker(read: UartRead)
    requires WellFormedRead(read)
    ensures !Get(read).status.Failed? <==>
      read.Received? && exists i: nat :: i + RECORD_SIZE <= |read.bytes| && MarkerAt(read.bytes, i)
  {
    if read.Received? && |read.bytes| > 0 {
      var buf := ReceiveBuffer(read.bytes);
      var n := |read.bytes|;
      ScanFindsFirst(buf, n, RECORD_SIZE);
      assert forall i: nat :: i + RECORD_SIZE <= n ==> (MarkerAt(buf, i) <==> MarkerAt(read.bytes, i));
    }
  }

  /** First match wins: every field comes from the smallest index holding the
      marker, and the checksum field from the two bytes after the 30. */
  lemma GetFirstMatch(read: UartRead, i: nat)
    requires WellFormedRead(read) && read.Received?
    requires IsFirstStart(read.bytes, i, RECORD_SIZE) && i + FRAME_SIZE <= RECEIVE_BUFFER_SIZE
    ensures Get(read) == Reading(Success, DecodeFrame(ReceiveBuffer(read.bytes)[i..i + FRAME_SIZE]))
  {
    var buf := ReceiveBuffer(read.bytes);
    assert buf[..|read.bytes|] == read.bytes;
    ScanFindsFirst(buf, |read.bytes|, RECORD_SIZE);
  }

  /** A frame that starts 30 bytes before the end of the read passes the
      lookahead check, and its checksum field comes from the zero padding of
      the receive buffer. */
  lemma ChecksumFromPadding(read: UartRead, i: nat)
    requires WellFormedRead(read) && read.Received?
    requires IsFirstStart(read.bytes, i, RECORD_SIZE) && |read.bytes| == i + CHECKED_LENGTH
    requires i + FRAME_SIZE <= RECEIVE_BUFFER_SIZE
    ensures Get(read).status == Success && Get(read).data.checksum == 0
  {
    GetFirstMatch(read, i);
    var buf := ReceiveBuffer(read.bytes);
    assert buf[i..i + FRAME_SIZE][30] == buf[i + 30] == 0;
    assert buf[i..i + FRAME_SIZE][31] == buf[i + 31] == 0;
  }

  /** With one byte after the 30, that byte becomes the checksum's high byte
      and the padding its low byte. */
  lemma ChecksumHalfFromPadding(read: UartRead, i: nat)
    requires WellFormedRead(read) && read.Received?
    requires IsFirstStart(read.bytes, i, RECORD_SIZE) && |read.bytes| == i + CHECKED_LENGTH + 1
    requires i + FRAME_SIZE <= RECEIVE_BUFFER_SIZE
    ensures Get(read).status == Success && Get(read).data.checksum == 256 * (read.bytes[i + 30] as int)
  {
    GetFirstMatch(read, i);
    PaddedChecksumField(read.bytes, i);
  }

  lemma PaddedChecksumField(bytes: seq<byte>, i: nat)
    requires |bytes| == i + CHECKED_LENGTH + 1 && i + FRAME_SIZE <= RECEIVE_BUFFER_SIZE
    ensures DecodeFrame(ReceiveBuffer(bytes)[i..i + FRAME_SIZE]).checksum == 256 * (bytes[i + 30] as int)
  {
    var buf := ReceiveBuffer(bytes);
    var hi := bytes[i + 30];
    assert buf[i + 30] == hi;
    assert buf[i + 31] == 0;
    var frame := buf[i..i + FRAME_SIZE];
    assert frame[30] == hi && frame[31] == 0;
  }

  /** When the frame at the first marker runs past the array, the call
      reports the over-read, and the record holds the thirteen fields
      assigned from in-bounds bytes before the access past the end. */
  lemma OverReadKeepsFields(read: UartRead, i: nat)
    requires WellFormedRead(read) && read.Received?
    requires IsFirstStart(read.bytes, i, RECORD_SIZE) && RECEIVE_BUFFER_SIZE < i + FRAME_SIZE
    ensures Get(read).status == OutOfBounds(RECEIVE_BUFFER_SIZE)
    ensures InBoundsFields(Get(read).data, read.bytes, i)
  {
    var buf := ReceiveBuffer(read.bytes);
    assert buf[..|read.bytes|] == read.bytes;
    ScanFindsFirst(buf, |read.bytes|, RECORD_SIZE);
  }

  /** The over-read: a full 128-byte read with its only marker at 98 passes
      the 30-byte lookahead check, and the decoder then reads indices 128
      and 129 of a 128-byte array. */
  lemma OverReadAtFullBuffer()
    ensures var bytes := seq(98, _ => 0) + [0x42, 0x4D] + seq(28, _ => 0);
      && |bytes| == RECEIVE_BUFFER_SIZE
      && IsFirstStart(bytes, 98, RECORD_SIZE)
      && Get(Received(bytes)).status == OutOfBounds(RECEIVE_BUFFER_SIZE)
  {
    var bytes := seq(98, _ => 0) + [0x42, 0x4D] + seq(28, _ => 0);
    assert MarkerAt(bytes, 98);
    assert forall k :: 0 <= k < 98 ==> bytes[k] == 0;
    assert IsFirstStart(bytes, 98, RECORD_SIZE);
    var buf := ReceiveBuffer(bytes);
    assert buf == bytes;
    ScanFindsFirst(buf, 128, RECORD_SIZE);
  }

  /** The unchecked checksum: a frame whose checksum field is 0 while its
      bytes sum to 0x8F is reported as a success. */
  lemma BadChecksumAccepted()
    ensures var bytes := [0x42, 0x4D] + seq(30, _ => 0);
      && Get(Received(bytes)) == Reading(Success, DecodeFrame(bytes))
      && DecodeFrame(bytes).checksum == 0
      && Checksum(bytes[..CHECKED_LENGTH]) == 0x8F
  {
    var bytes: seq<byte> := [0x42, 0x4D] + seq(30, _ => 0);
    assert IsFirstStart(bytes, 0, RECORD_SIZE);
    GetFirstMatch(Received(bytes), 0);
    assert ReceiveBuffer(bytes)[0..FRAME_SIZE] == bytes;
    var c := bytes[..CHECKED_LENGTH];
    assert c[..2] == [0x42, 0x4D];
    SumOfZeroTail(c, 2);
    assert Sum([0x42, 0x4D]) == 0x8F by { assert [0x42, 0x4D][..1] == [0x42]; }
  }

  /** Zeros after the first `k` bytes add nothing to the sum. */
  lemma {:induction false} SumOfZeroTail(s: seq<byte>, k: nat)
    requires k <= |s| && forall j :: k <= j < |s| ==> s[j] == 0
    ensures Sum(s) == Sum(s[..k])
    decreases |s|
  {
    if |s| > k {
      assert s[..|s| - 1][..k] == s[..k];
      SumOfZeroTail(s[..|s| - 1], k);
    } else {
      assert s[..k] == s;
    }
  }

  // ---------------------------------------------------------------------------
  // The corrected decoder

  datatype ValidationError = NoFrameBytes | NoFrame | ChecksumMismatch(computed: u16, transmitted: u16)

  /** The decoder with the two gaps closed: the scan demands a whole 32-byte
      frame among the received bytes, and the frame is accepted only when the
      checksum of its first 30 bytes equals its checksum field. */
  function GetValidated(read: UartRead): (r: Result<PmsData, ValidationError>)
    requires WellFormedRead(read)
    ensures BytesRead(read) <= 0 ==> r == Err(NoFrameBytes)
    ensures r.Ok? ==> read.Received? && (exists i: nat ::
      && IsFirstStart(read.bytes, i, FRAME_SIZE)
      && r.value == DecodeFrame(read.bytes[i..i + FRAME_SIZE])
      && r.value.checksum == Checksum(read.bytes[i..i + CHECKED_LENGTH]))
    ensures r.Ok? ==> r.value.reserved == 0
  {
    if BytesRead(read) <= 0 then Err(NoFrameBytes)
    else
      var bytes := read.bytes;
      match Scan(bytes, |bytes|, 0, FRAME_SIZE)
      case Found(i) =>
        assert bytes[..|bytes|] == bytes;
        assert IsFirstStart(read.bytes, i, FRAME_SIZE);
        var frame := bytes[i..i + FRAME_SIZE];
        var transmitted := MakeWord(frame[30], frame[31]);
        assert frame[..CHECKED_LENGTH] == bytes[i..i + CHECKED_LENGTH];
        var computed := Checksum(frame[..CHECKED_LENGTH]);
        if computed == transmitted then Ok(DecodeFrame(frame)) else Err(ChecksumMismatch(computed, transmitted))
      case _ => Err(NoFrame)
  }

  /** The checksum a frame carrying these fields must have. */
  function FrameChecksum(d: PmsData): u16 {
    Checksum(EncodeFrame(d)[..CHECKED_LENGTH])
  }

  /** A valid frame, preceded by bytes without the marker, decodes to the
      fields it carries, each the big-endian value of its byte pair. */
  lemma ValidFrameDecodes(prefix: seq<byte>, d: PmsData, suffix: seq<byte>)
    requires d.checksum == FrameChecksum(d)
    requires forall k :: 0 <= k < |prefix| - 1 ==> !MarkerAt(prefix, k)
    requires |prefix| + FRAME_SIZE + |suffix| <= RECEIVE_BUFFER_SIZE
    ensures GetValidated(Received(prefix + EncodeFrame(d) + suffix)) == Ok(d.(reserved := 0))
  {
    var f := EncodeFrame(d);
    var bytes := prefix + f + suffix;
    var i := |prefix|;
    assert bytes[i..i + FRAME_SIZE] == f;
    forall k | 0 <= k < i
      ensures !MarkerAt(bytes, k)
    {
      if k < i - 1 {
        assert !MarkerAt(prefix, k);
      } else {
        assert bytes[k + 1] == f[0];
      }
    }
    assert IsFirstStart(bytes, i, FRAME_SIZE);
    assert bytes[..|bytes|] == bytes;
    ScanFindsFirst(bytes, |bytes|, FRAME_SIZE);
    DecodeEncode(d);
    assert f[..CHECKED_LENGTH] == bytes[i..i + CHECKED_LENGTH];
  }

  /** Changing any one byte after the marker among the 30 checked bytes of an
      accepted frame makes the corrected decoder report a checksum mismatch. */
  lemma OneByteCorruptionDetected(bytes: seq<byte>, i: nat, k: nat, v: byte)
    requires |bytes| <= RECEIVE_BUFFER_SIZE
    requires IsFirstStart(bytes, i, FRAME_SIZE)
    requires Checksum(bytes[i..i + CHECKED_LENGTH]) == MakeWord(bytes[i + 30], bytes[i + 31])
    requires 2 <= k < CHECKED_LENGTH && bytes[i + k] != v
    ensures GetValidated(Received(bytes)).Ok?
    ensures GetValidated(Received(bytes[i + k := v])).Err?
    ensures GetValidated(Received(bytes[i + k := v])).error.ChecksumMismatch?
  {
    assert bytes[..|bytes|] == bytes;
    ScanFindsFirst(bytes, |bytes|, FRAME_SIZE);
    var frame := bytes[i..i + FRAME_SIZE];
    assert frame[30] == bytes[i + 30] && frame[31] == bytes[i + 31];
    assert frame[..CHECKED_LENGTH] == bytes[i..i + CHECKED_LENGTH];
    var t := bytes[i + k := v];
    assert t[..|t|] == t;
    forall j | 0 <= j < i
      ensures !MarkerAt(t, j)
    {
      assert j + 1 < i + k;
      assert !MarkerAt(bytes, j);
      assert t[j] == bytes[j] && t[j + 1] == bytes[j + 1];
    }
    assert IsFirstStart(t, i, FRAME_SIZE);
    ScanFindsFirst(t, |t|, FRAME_SIZE);
    assert t[i..i + CHECKED_LENGTH] == bytes[i..i + CHECKED_LENGTH][k := v];
    ChecksumDetectsOneByte(bytes[i..i + CHECKED_LENGTH], k, v);
    var frame' := t[i..i + FRAME_SIZE];
    assert frame'[30] == bytes[i + 30] && frame'[31] == bytes[i + 31];
    assert frame'[..CHECKED_LENGTH] == t[i..i + CHECKED_LENGTH];
  }

  /** The frame the as-written decoder accepts without comparing its
      checksum is rejected by the corrected one. */
  lemma BadChecksumRejected()
    ensures GetValidated(Received([0x42, 0x4D] + seq(30, _ => 0))) == Err(ChecksumMismatch(0x8F, 0))
  {
    var bytes: seq<byte> := [0x42, 0x4D] + seq(30, _ => 0);
    BadChecksumAccepted();
    assert IsFirstStart(bytes, 0, FRAME_SIZE);
    assert bytes[..|bytes|] == bytes;
    ScanFindsFirst(bytes, |bytes|, FRAME_SIZE);
    var frame := bytes[0..FRAME_SIZE];
    assert frame == bytes;
    assert frame[..CHECKED_LENGTH] == bytes[..CHECKED_LENGTH];
    assert MakeWord(frame[30], frame[31]) == 0;
  }

  // ---------------------------------------------------------------------------
  // Command frames

  const SLEEP_COMMAND: seq<byte> := [0x42, 0x4D, 0xE4, 0x00, 0x00, 0x01, 0x73]
  const WAKEUP_COMMAND: seq<byte> := [0x42, 0x4D, 0xE4, 0x00, 0x01, 0x01, 0x74]
  const PASSIVE_MODE_COMMAND: seq<byte> := [0x42, 0x4D, 0xE2, 0x00, 0x00, 0x01, 0x71]

  /** A host-to-sensor command: marker, command byte, two data bytes, then
      the big-endian sum of those five bytes. */
  function CommandFrame(command: byte, dataHigh: byte, dataLow: byte): (f: seq<byte>)
    ensures |f| == 7 && MarkerAt(f, 0)
    ensures MakeWord(f[5], f[6]) == Sum(f[..5])
  {
    var body := [START_CHARACTER_1, START_CHARACTER_2, command, dataHigh, dataLow];
    SumBound(body);
    var sum := Sum(body);
    assert (body + WordBytes(sum))[..5] == body;
    body + WordBytes(sum)
  }

  /** The sum of a five-byte command body. */
  lemma SumOfFive(a: byte, b: byte, c: byte, d: byte, e: byte)
    ensures Sum([a, b, c, d, e]) == a + b + c + d + e
  {
    assert Sum([a]) == a by { assert [a][..0] == []; }
    assert Sum([a, b]) == a + b by { assert [a, b][..1] == [a]; }
    assert Sum([a, b, c]) == a + b + c by { assert [a, b, c][..2] == [a, b]; }
    assert Sum([a, b, c, d]) == a + b + c + d by { assert [a, b, c, d][..3] == [a, b, c]; }
    assert [a, b, c, d, e][..4] == [a, b, c, d];
  }

  /** A command frame spelled out byte by byte. */
  lemma CommandFrameBytes(command: byte, dataHigh: byte, dataLow: byte)
    ensures var sum := 0x42 + 0x4D + command + dataHigh + dataLow;
      CommandFrame(command, dataHigh, dataLow)
      == [0x42, 0x4D, command, dataHigh, dataLow, sum / 256, sum % 256]
  {
    SumOfFive(0x42, 0x4D, command, dataHigh, dataLow);
  }

  /** The three hard-coded commands are well-formed command frames: sleep is
      command 0xE4 with data 0, wake-up is 0xE4 with data 1, passive mode is
      0xE2 with data 0; their trailers are 0x0173, 0x0174 and 0x0171. */
  lemma CommandsAreFrames()
    ensures SLEEP_COMMAND == CommandFrame(0xE4, 0x00, 0x00)
    ensures WAKEUP_COMMAND == CommandFrame(0xE4, 0x00, 0x01)
    ensures PASSIVE_MODE_COMMAND == CommandFrame(0xE2, 0x00, 0x00)
  {
    CommandFrameBytes(0xE4, 0x00, 0x00);
    assert CommandFrame(0xE4, 0x00, 0x00) == [0x42, 0x4D, 0xE4, 0x00, 0x00, 0x173 / 256, 0x173 % 256];
    CommandFrameBytes(0xE4, 0x00, 0x01);
    assert CommandFrame(0xE4, 0x00, 0x01) == [0x42, 0x4D, 0xE4, 0x00, 0x01, 0x174 / 256, 0x174 % 256];
    CommandFrameBytes(0xE2, 0x00, 0x00);
    assert CommandFrame(0xE2, 0x00, 0x00) == [0x42, 0x4D, 0xE2, 0x00, 0x00, 0x171 / 256, 0x171 % 256];
  }
}
