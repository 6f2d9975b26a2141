/**
  The DFU frame: its Intel HEX checksum and the effect of parsing one frame on
  the pending image (the 256 x 256 buffer newApp, seen as one flat 65536-byte
  sequence whose byte (h, x) is at h * 256 + x).

  A frame holds, decoded from hex pairs: byte count n, address high byte h,
  address low byte w, record type, n data bytes, checksum.
 */
module Frame {
  import opened Bytes

  /** Sum of the bytes, as an unbounded integer */
  function Sum(s: seq<byte>): nat
    decreases |s|
  {
    if s == [] then 0 else Sum(s[..|s| - 1]) + s[|s| - 1] as nat
  }

  /** The CHKSUM field of an Intel HEX record: the two's complement of the low byte of the sum */
  function IntelHexChecksum(payload: seq<byte>): (c: byte)
    ensures (Sum(payload) + c as int) % 256 == 0
  {
    ((256 - Sum(payload) % 256) % 256) as byte
  }

  /** A received frame of `length` bytes whose last byte is the checksum of the others */
  predicate ChecksumValid(frame: seq<byte>)
    requires |frame| >= 1
  {
    frame[|frame| - 1] == IntelHexChecksum(frame[..|frame| - 1])
  }

  /** Two bytes that complete the same sum to a multiple of 256 are equal */
  lemma CompletionUnique(total: nat, c: byte, d: byte)
    requires (total + c as int) % 256 == 0 && (total + d as int) % 256 == 0
    ensures c == d
  {
    var q1, q2 := (total + c as int) / 256, (total + d as int) / 256;
    assert total + c as int == 256 * q1;
    assert total + d as int == 256 * q2;
    assert c as int - d as int == 256 * (q1 - q2);
  }

  /** The checksum holds exactly when all bytes, the checksum included, sum to 0 modulo 256 */
  lemma ChecksumValidIffSumZero(frame: seq<byte>)
    requires |frame| >= 1
    ensures ChecksumValid(frame) <==> Sum(frame) % 256 == 0
  {
    var payload := frame[..|frame| - 1];
    var last := frame[|frame| - 1];
    assert Sum(frame) == Sum(payload) + last as nat;
    if Sum(frame) % 256 == 0 {
      CompletionUnique(Sum(payload), last, IntelHexChecksum(payload));
    }
  }

  // ------------------------------------------------------------------
  // Parse

  /** Record type 00: a data record */
  predicate IsDataRecord(frame: seq<byte>)
    requires |frame| == FRAME_SIZE
  {
    frame[3] == 0
  }

  function ByteCount(frame: seq<byte>): nat
    requires |frame| == FRAME_SIZE
  {
    frame[0] as nat
  }

  /** The data bytes of the frame (those that fit in the 45-byte buffer) */
  function Data(frame: seq<byte>): (d: seq<byte>)
    requires |frame| == FRAME_SIZE
    ensures 4 + ByteCount(frame) <= FRAME_SIZE ==> d == frame[4..4 + ByteCount(frame)]
  {
    if 4 + ByteCount(frame) <= FRAME_SIZE then frame[4..4 + ByteCount(frame)] else frame[4..]
  }

  /** Where the data bytes go: h * 256 + w */
  function CopyStart(frame: seq<byte>): nat
    requires |frame| == FRAME_SIZE
  {
    frame[1] as nat * APP_WIDTH + frame[2] as nat
  }

  /** The 16-byte block after the one holding address w: h * 256 + (w & 0xF0) + 16 */
  function ClearStart(frame: seq<byte>): nat
    requires |frame| == FRAME_SIZE
  {
    frame[1] as nat * APP_WIDTH + (frame[2] as nat / 16) * 16 + FRAME_DATA_SIZE
  }

  /**
    A data record stays inside the frame buffer and inside the pending image:
    4 + n <= 45, the cleared block ends by 65536, and so does the copy.
    Other record types touch nothing.
   */
  predicate ParseInBounds(frame: seq<byte>)
    requires |frame| == FRAME_SIZE
  {
    IsDataRecord(frame) ==>
      && 4 + ByteCount(frame) <= FRAME_SIZE
      && ClearStart(frame) + FRAME_DATA_SIZE <= APP_SIZE
      && CopyStart(frame) + ByteCount(frame) <= APP_SIZE
  }

  /**
    The pending image after STM32_Bootloader_Parse(frame). A data record first
    sets the 16-byte block after the one holding h * 256 + w to 0xFF, then
    copies its n data bytes to h * 256 + w; where the two overlap, the copy wins.
   */
  function ParsedImage(img: seq<byte>, frame: seq<byte>): (r: seq<byte>)
    requires |img| == APP_SIZE && |frame| == FRAME_SIZE && ParseInBounds(frame)
    ensures |r| == APP_SIZE
    ensures !IsDataRecord(frame) ==> r == img
  {
    if !IsDataRecord(frame) then img
    else
      var cs, cl, n := CopyStart(frame), ClearStart(frame), ByteCount(frame);
      seq(APP_SIZE, k requires 0 <= k < APP_SIZE =>
        if cs <= k < cs + n then frame[4 + k - cs]
        else if cl <= k < cl + FRAME_DATA_SIZE then 0xFF
        else img[k])
  }

  /**
    A data record with n = frame[0], h = frame[1] and w = frame[2] writes
    frame[4 + i] to h * 256 + w + i for i < n, sets the rest of the block
    [h * 256 + (w & 0xF0) + 16, h * 256 + (w & 0xF0) + 32) to 0xFF, and
    leaves every other byte alone.
   */
  lemma ParseDataRecord(img: seq<byte>, frame: seq<byte>, k: nat)
    requires |img| == APP_SIZE && |frame| == FRAME_SIZE && ParseInBounds(frame) && frame[3] == 0 && k < APP_SIZE
    ensures var r, n, h, w := ParsedImage(img, frame), frame[0] as nat, frame[1] as nat, frame[2] as nat;
      var copied := h * 256 + w <= k < h * 256 + w + n;
      var cleared := h * 256 + (w / 16) * 16 + 16 <= k < h * 256 + (w / 16) * 16 + 32;
      && (copied ==> r[k] == frame[4 + k - (h * 256 + w)])
      && (cleared && !copied ==> r[k] == 0xFF)
      && (!cleared && !copied ==> r[k] == img[k])
  {
    var h, w := frame[1] as nat, frame[2] as nat;
    assert CopyStart(frame) == h * 256 + w;
    assert ClearStart(frame) == h * 256 + (w / 16) * 16 + 16;
  }

  /** newAppOffset after STM32_Bootloader_Parse(frame) */
  function ParsedOffset(offset: nat, frame: seq<byte>): (r: nat)
    requires |frame| == FRAME_SIZE
    ensures !IsDataRecord(frame) ==> r == offset
    ensures IsDataRecord(frame) ==> r == CopyStart(frame) + FRAME_DATA_SIZE
  {
    if IsDataRecord(frame) then CopyStart(frame) + FRAME_DATA_SIZE else offset
  }

  /** Parsing the same frame a second time (a retransmission) changes neither the image nor the offset */
  lemma {:induction false} ParseIdempotent(img: seq<byte>, frame: seq<byte>, offset: nat)
    requires |img| == APP_SIZE && |frame| == FRAME_SIZE && ParseInBounds(frame)
    ensures ParsedImage(ParsedImage(img, frame), frame) == ParsedImage(img, frame)
    ensures ParsedOffset(ParsedOffset(offset, frame), frame) == ParsedOffset(offset, frame)
  {
    if IsDataRecord(frame) {
      var once := ParsedImage(img, frame);
      var twice := ParsedImage(once, frame);
      forall k | 0 <= k < APP_SIZE ensures twice[k] == once[k] {
      }
    }
  }

  /** A full data record: 16 data bytes at a 16-byte aligned address of a given page */
  predicate FullRecordAt(frame: seq<byte>, addr: nat)
    requires |frame| == FRAME_SIZE
  {
    && IsDataRecord(frame) && ByteCount(frame) == FRAME_DATA_SIZE
    && CopyStart(frame) == addr && addr % FRAME_DATA_SIZE == 0
  }

  /** The pending image after parsing `frames` in order */
  function ParseAll(img: seq<byte>, frames: seq<seq<byte>>): (r: seq<byte>)
    requires |img| == APP_SIZE
    requires forall j :: 0 <= j < |frames| ==> |frames[j]| == FRAME_SIZE && ParseInBounds(frames[j])
    ensures |r| == APP_SIZE
    decreases |frames|
  {
    if frames == [] then img
    else ParsedImage(ParseAll(img, frames[..|frames| - 1]), frames[|frames| - 1])
  }

  /** newAppOffset after parsing `frames` in order */
  function FinalOffset(offset: nat, frames: seq<seq<byte>>): nat
    requires forall j :: 0 <= j < |frames| ==> |frames[j]| == FRAME_SIZE
    decreases |frames|
  {
    if frames == [] then offset
    else ParsedOffset(FinalOffset(offset, frames[..|frames| - 1]), frames[|frames| - 1])
  }

  /** Parsing a + b is parsing a, then b */
  lemma {:induction false} ParseAllAppend(img: seq<byte>, offset: nat, a: seq<seq<byte>>, b: seq<seq<byte>>)
    requires |img| == APP_SIZE
    requires forall j :: 0 <= j < |a| ==> |a[j]| == FRAME_SIZE && ParseInBounds(a[j])
    requires forall j :: 0 <= j < |b| ==> |b[j]| == FRAME_SIZE && ParseInBounds(b[j])
    ensures forall j :: 0 <= j < |a + b| ==> |(a + b)[j]| == FRAME_SIZE && ParseInBounds((a + b)[j])
    ensures ParseAll(img, a + b) == ParseAll(ParseAll(img, a), b)
    ensures FinalOffset(offset, a + b) == FinalOffset(FinalOffset(offset, a), b)
    decreases |b|
  {
    assert forall j :: 0 <= j < |a + b| ==> (a + b)[j] == if j < |a| then a[j] else b[j - |a|];
    if b == [] {
      assert a + b == a;
    } else {
      var b' := b[..|b| - 1];
      assert (a + b)[..|a + b| - 1] == a + b';
      ParseAllAppend(img, offset, a, b');
    }
  }

  /**
    The latest data record decides newAppOffset, not the largest address:
    after parsing frames whose last data record is frames[j], the offset is
    that record's h * 256 + w + 16.
   */
  lemma {:induction false} FinalOffsetLatest(offset: nat, frames: seq<seq<byte>>, j: nat)
    requires forall m :: 0 <= m < |frames| ==> |frames[m]| == FRAME_SIZE
    requires j < |frames| && IsDataRecord(frames[j])
    requires forall m :: j < m < |frames| ==> !IsDataRecord(frames[m])
    ensures FinalOffset(offset, frames) == CopyStart(frames[j]) + FRAME_DATA_SIZE
    decreases |frames|
  {
    if j < |frames| - 1 {
      FinalOffsetLatest(offset, frames[..|frames| - 1], j);
    }
  }

  /** The data bytes of the frames, in order */
  function Payloads(frames: seq<seq<byte>>): seq<byte>
    requires forall j :: 0 <= j < |frames| ==> |frames[j]| == FRAME_SIZE
    decreases |frames|
  {
    if frames == [] then []
    else Payloads(frames[..|frames| - 1]) + Data(frames[|frames| - 1])
  }

  /** Payloads of full records are 16 bytes each */
  lemma {:induction false} PayloadsLength(frames: seq<seq<byte>>)
    requires forall j :: 0 <= j < |frames| ==> |frames[j]| == FRAME_SIZE && ByteCount(frames[j]) == FRAME_DATA_SIZE
    ensures |Payloads(frames)| == FRAME_DATA_SIZE * |frames|
    decreases |frames|
  {
    if frames != [] {
      PayloadsLength(frames[..|frames| - 1]);
    }
  }

  /** The frames are full records at consecutive 16-byte blocks from `base` */
  predicate Contiguous(frames: seq<seq<byte>>, base: nat)
  {
    forall j :: 0 <= j < |frames| ==>
      |frames[j]| == FRAME_SIZE && ParseInBounds(frames[j]) && FullRecordAt(frames[j], base + FRAME_DATA_SIZE * j)
  }

  /**
    Parsing a full record at the 16-byte aligned address `a` keeps everything
    below `a`, writes its data at `a` and erases the block after it.
   */
  lemma FullRecordParsed(img: seq<byte>, frame: seq<byte>, a: nat, r: seq<byte>)
    requires |img| == APP_SIZE && |frame| == FRAME_SIZE && ParseInBounds(frame) && FullRecordAt(frame, a)
    requires r == ParsedImage(img, frame)
    ensures a + 2 * FRAME_DATA_SIZE <= APP_SIZE && |Data(frame)| == FRAME_DATA_SIZE
    ensures forall k :: 0 <= k < a ==> r[k] == img[k]
    ensures forall k :: a <= k < a + FRAME_DATA_SIZE ==> r[k] == Data(frame)[k - a]
    ensures forall k :: a + FRAME_DATA_SIZE <= k < a + 2 * FRAME_DATA_SIZE ==> r[k] == 0xFF
  {
    assert ClearStart(frame) == a + FRAME_DATA_SIZE;
  }

  /**
    Frames of 16 data bytes at consecutive 16-byte blocks from `base` leave
    their concatenated data in the pending image, followed by one erased block.
   */
  lemma {:induction false} ParseAllContiguous(img: seq<byte>, frames: seq<seq<byte>>, base: nat)
    requires |img| == APP_SIZE && Contiguous(frames, base) && frames != []
    ensures |Payloads(frames)| == FRAME_DATA_SIZE * |frames|
    ensures base + FRAME_DATA_SIZE * (|frames| + 1) <= APP_SIZE
    ensures forall k :: base <= k < base + FRAME_DATA_SIZE * |frames| ==> ParseAll(img, frames)[k] == Payloads(frames)[k - base]
    ensures forall k :: base + FRAME_DATA_SIZE * |frames| <= k < base + FRAME_DATA_SIZE * (|frames| + 1)
              ==> ParseAll(img, frames)[k] == 0xFF
    decreases |frames|
  {
    var m := |frames| - 1;
    var last := frames[m];
    var init := frames[..m];
    var a := base + FRAME_DATA_SIZE * m;
    assert FullRecordAt(last, a);
    assert Contiguous(init, base) by {
      assert forall j :: 0 <= j < |init| ==> init[j] == frames[j];
    }
    var before := ParseAll(img, init);
    var after := ParseAll(img, frames);
    FullRecordParsed(before, last, a, after);
    var payloads := Payloads(frames);
    assert payloads == Payloads(init) + Data(last);
    PayloadsLength(frames);
    PayloadsLength(init);
    forall k | a <= k < a + FRAME_DATA_SIZE ensures after[k] == payloads[k - base] {
      assert payloads[k - base] == Data(last)[k - a];
    }
    if m > 0 {
      ParseAllContiguous(img, init, base);
      forall k | base <= k < a ensures after[k] == payloads[k - base] {
        assert payloads[k - base] == Payloads(init)[k - base];
      }
    }
  }

  /** The same, as a slice: the image from `base` on holds the frames' data */
  lemma ParseAllContiguousSlice(img: seq<byte>, frames: seq<seq<byte>>, base: nat)
    requires |img| == APP_SIZE && Contiguous(frames, base) && frames != []
    ensures base + FRAME_DATA_SIZE * (|frames| + 1) <= APP_SIZE
    ensures ParseAll(img, frames)[base..base + FRAME_DATA_SIZE * |frames|] == Payloads(frames)
  {
    ParseAllContiguous(img, frames, base);
  }
}
