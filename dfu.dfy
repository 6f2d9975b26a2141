/**
  STM32_Bootloader_DFU as a function of what the host sends: the receive
  loop that assembles, checks, parses and acknowledges Intel HEX frames, and
  the commit that programs the image and then the vault.
 */
module Dfu {
  import opened Bytes
  import opened Frame
  import opened FlashLog
  import opened Vault
  import opened Uart

  // ------------------------------------------------------------------
  // The receive loop

  /** The loop's variables: the frame buffer, count, isInFrame and the deadline */
  datatype Scan = Scan(frame: seq<byte>, count: nat, inFrame: bool, timeout: nat)

  predicate ScanOk(s: Scan) {
    |s.frame| == FRAME_SIZE && s.count <= FRAME_SIZE
  }

  /** newApp and newAppOffset */
  datatype Image = Image(bytes: seq<byte>, offset: nat)

  /**
    Why the receive loop ends: the end marker was acknowledged, the deadline
    passed, a checksum failed, an acknowledgement could not be sent, or the
    C code would access memory outside its buffers (Overrun).
   */
  datatype Stop = Complete | TimedOut | BadChecksum | AckFailed | Overrun

  /** The frame buffer after memset(frame, 0xFF, FRAME_SIZE) */
  function Blank(): (f: seq<byte>)
    ensures |f| == FRAME_SIZE && forall k :: 0 <= k < FRAME_SIZE ==> f[k] == 0xFF
  {
    seq(FRAME_SIZE, _ => 0xFF)
  }

  /** frame[0] == 0x00 && frame[count - 1] == 0xFF, as in ":00000001FF" */
  predicate IsEndMarker(s: Scan)
    requires ScanOk(s) && s.count >= 1
  {
    s.frame[0] == 0 && s.frame[s.count - 1] == 0xFF
  }

  /** The frame passed the checksum over its first c received bytes, for some c */
  predicate Verified(f: seq<byte>) {
    exists c :: 1 <= c <= |f| && ChecksumValid(f[..c])
  }

  /** Frames the loop parsed: full buffers, inside the image, that passed their checksum */
  predicate Parsable(frames: seq<seq<byte>>) {
    forall j :: 0 <= j < |frames| ==> |frames[j]| == FRAME_SIZE && ParseInBounds(frames[j]) && Verified(frames[j])
  }

  /** `after` is `before` followed by n "OK" messages */
  predicate Acks(before: seq<seq<byte>>, after: seq<seq<byte>>, n: nat) {
    && |after| == |before| + n && after[..|before|] == before
    && forall j :: |before| <= j < |after| ==> after[j] == OK
  }

  lemma AcksAppend(a: seq<seq<byte>>, b: seq<seq<byte>>, c: seq<seq<byte>>, n: nat, m: nat)
    requires Acks(a, b, n) && Acks(b, c, m)
    ensures Acks(a, c, n + m)
  {
    assert c[..|a|] == c[..|b|][..|a|];
  }

  lemma ParsableAppend(img: seq<byte>, offset: nat, a: seq<seq<byte>>, b: seq<seq<byte>>)
    requires |img| == APP_SIZE && Parsable(a) && Parsable(b)
    ensures Parsable(a + b)
    ensures ParseAll(img, a + b) == ParseAll(ParseAll(img, a), b)
    ensures FinalOffset(offset, a + b) == FinalOffset(FinalOffset(offset, a), b)
  {
    assert forall j :: 0 <= j < |a + b| ==> (a + b)[j] == if j < |a| then a[j] else b[j - |a|];
    ParseAllAppend(img, offset, a, b);
  }

  /** The last message sent was sent with outcome ok */
  predicate LastSent(sent: seq<seq<byte>>, txOutcome: nat -> bool, ok: bool) {
    |sent| >= 1 && txOutcome(|sent| - 1) == ok
  }

  /**
    One pass of the loop; `parsed` holds the frame parsed in it, if any, and
    `stop` why the loop ends there, if it does.
   */
  datatype Pass = Pass(line: Line, scan: Scan, image: Image, parsed: seq<seq<byte>>, stop: Option<Stop>)

  /** The pass the loop makes from line l, variables s and image im */
  function Iteration(l: Line, s: Scan, im: Image, txOutcome: nat -> bool): (r: Pass)
    requires ScanOk(s) && |im.bytes| == APP_SIZE
    ensures ScanOk(r.scan) && |r.image.bytes| == APP_SIZE
    // every pass uses up an answer of the host, or waits UART_TIMEOUT on a silent line
    ensures |r.line.rx| < |l.rx|
            || (l.rx == [] && r == Pass(Line([], l.clock + UART_TIMEOUT, l.sent), s, im, [], None))
  {
    var first := Receive(l, 1);
    if !first.ok then Pass(first.line, s, im, [], None)
    else
      var b := first.data[0];
      var l1 := first.line;
      var s1 := Scan(s.frame, s.count, s.inFrame, l1.clock + BOOT_TIMEOUT);
      if b == COLON then Pass(l1, Scan(s.frame, s.count, true, s1.timeout), im, [], None)
      else if b == CR then Pass(l1, s1, im, [], None)
      else if s.inFrame && b == LF then FrameEnd(l1, s1, im, txOutcome)
      else if s.inFrame then DataPair(l1, s1, b, im)
      else Pass(l1, s1, im, [], None)
  }

  /**
    The '\n' that ends a frame of s.count bytes, once l1 is the line after
    it: the checksum, the parse, the "OK", then the end marker test or a
    fresh buffer.
   */
  function FrameEnd(l1: Line, s: Scan, im: Image, txOutcome: nat -> bool): (r: Pass)
    requires ScanOk(s) && |im.bytes| == APP_SIZE
    ensures ScanOk(r.scan) && |r.image.bytes| == APP_SIZE && r.line.rx == l1.rx
  {
    if s.count == 0 then Pass(l1, s, im, [], Some(Overrun))
    else if !ChecksumValid(s.frame[..s.count]) then Pass(l1, s, im, [], Some(BadChecksum))
    else if !ParseInBounds(s.frame) then Pass(l1, s, im, [], Some(Overrun))
    else
      var im1 := Image(ParsedImage(im.bytes, s.frame), ParsedOffset(im.offset, s.frame));
      var ack := Transmit(l1, OK, txOutcome);
      if !ack.ok then Pass(ack.line, s, im1, [s.frame], Some(AckFailed))
      else if IsEndMarker(s) then Pass(ack.line, s, im1, [s.frame], Some(Complete))
      else Pass(ack.line, Scan(Blank(), 0, false, s.timeout), im1, [s.frame], None)
  }

  /** A byte b inside a frame, other than '\n', once l1 is the line after it: the second digit, and the pair stored */
  function DataPair(l1: Line, s: Scan, b: byte, im: Image): (r: Pass)
    requires ScanOk(s) && |im.bytes| == APP_SIZE
    ensures ScanOk(r.scan) && |r.image.bytes| == APP_SIZE && |r.line.rx| <= |l1.rx|
  {
    var second := Receive(l1, 1);
    if !second.ok then Pass(second.line, s, im, [], None)
    else if s.count == FRAME_SIZE then Pass(second.line, s, im, [], Some(Overrun))
    else
      var value := ToByte(Strtol16([b, second.data[0]]));
      Pass(second.line, Scan(s.frame[s.count := value], s.count + 1, true, s.timeout), im, [], None)
  }

  /**
    What one pass does to the image: at most one frame is parsed, only on
    "\n" inside a frame and once its checksum holds, and the image is the
    old one with that frame parsed.
   */
  lemma IterationParses(l: Line, s: Scan, im: Image, txOutcome: nat -> bool)
    requires ScanOk(s) && |im.bytes| == APP_SIZE
    ensures var r := Iteration(l, s, im, txOutcome);
      && |r.parsed| <= 1 && Parsable(r.parsed)
      && r.image == Image(ParseAll(im.bytes, r.parsed), FinalOffset(im.offset, r.parsed))
      && (r.parsed != [] ==> r.parsed == [s.frame] && s.inFrame && Receive(l, 1).data == [LF]
                             && s.count >= 1 && ChecksumValid(s.frame[..s.count]))
  {
    var r := Iteration(l, s, im, txOutcome);
    if r.parsed != [] {
      assert ChecksumValid(s.frame[..s.count]);
      assert Verified(s.frame);
    }
  }

  /** What one pass does to the line: time does not go back, and one "OK" is sent per parsed frame and nothing else */
  lemma IterationAcks(l: Line, s: Scan, im: Image, txOutcome: nat -> bool)
    requires ScanOk(s) && |im.bytes| == APP_SIZE
    ensures var r := Iteration(l, s, im, txOutcome);
      r.line.clock >= l.clock && Acks(l.sent, r.line.sent, |r.parsed|)
  {
  }

  /**
    How a pass can end the loop: a failed checksum before any parse or
    acknowledgement; a failed acknowledgement after the parse; the end marker
    once acknowledged; Overrun only where the C code would leave its
    buffers. A frame that is acknowledged and is not the end marker leaves
    the buffer refilled with 0xFF, count 0 and outside a frame.
   */
  lemma IterationStops(l: Line, s: Scan, im: Image, txOutcome: nat -> bool)
    requires ScanOk(s) && |im.bytes| == APP_SIZE
    ensures var r := Iteration(l, s, im, txOutcome);
      && (r.stop == Some(BadChecksum) ==>
            r.parsed == [] && s.count >= 1 && !ChecksumValid(s.frame[..s.count]) && r.line.sent == l.sent)
      && (r.stop == Some(AckFailed) ==> r.parsed == [s.frame] && LastSent(r.line.sent, txOutcome, false))
      && (r.stop == Some(Complete) ==>
            r.parsed == [r.scan.frame] && r.scan.count >= 1 && IsEndMarker(r.scan)
            && LastSent(r.line.sent, txOutcome, true))
      && (r.stop == None && r.parsed != [] ==>
            r.scan.frame == Blank() && r.scan.count == 0 && !r.scan.inFrame && txOutcome(|l.sent|))
      && (r.stop == Some(Overrun) ==> s.count == 0 || s.count == FRAME_SIZE || !ParseInBounds(s.frame))
  {
  }

  /**
    The deadline: a pass whose first receive succeeds moves it to the tick
    after that receive plus BOOT_TIMEOUT; a pass whose first receive fails
    changes nothing but the line.
   */
  lemma IterationDeadline(l: Line, s: Scan, im: Image, txOutcome: nat -> bool)
    requires ScanOk(s) && |im.bytes| == APP_SIZE
    ensures var r := Iteration(l, s, im, txOutcome);
      && (Receive(l, 1).ok ==> r.scan.timeout == Receive(l, 1).line.clock + BOOT_TIMEOUT)
      && (!Receive(l, 1).ok ==> r == Pass(Receive(l, 1).line, s, im, [], None))
  {
  }

  /**
    The handling of each received byte b, with t the new deadline: ':' enters
    a frame and keeps count; '\r' is ignored in every state; outside a frame
    every other byte is dropped; inside a frame a byte other than '\n' is the
    first digit of a hex pair, and when its second digit arrives the pair's
    value is stored at frame[count] and count grows by one.
   */
  lemma ByteHandling(l: Line, s: Scan, im: Image, txOutcome: nat -> bool)
    requires ScanOk(s) && |im.bytes| == APP_SIZE && Receive(l, 1).ok
    ensures var b, l1 := Receive(l, 1).data[0], Receive(l, 1).line;
      var t := l1.clock + BOOT_TIMEOUT;
      var r := Iteration(l, s, im, txOutcome);
      && (b == COLON ==> r == Pass(l1, Scan(s.frame, s.count, true, t), im, [], None))
      && (b == CR ==> r == Pass(l1, Scan(s.frame, s.count, s.inFrame, t), im, [], None))
      && (!s.inFrame && b != COLON && b != CR ==> r == Pass(l1, Scan(s.frame, s.count, false, t), im, [], None))
      && (s.inFrame && b != COLON && b != CR && b != LF && Receive(l1, 1).ok && s.count < FRAME_SIZE ==>
            r == Pass(Receive(l1, 1).line,
                      Scan(s.frame[s.count := ToByte(Strtol16([b, Receive(l1, 1).data[0]]))], s.count + 1, true, t),
                      im, [], None))
  {
  }

  /** Where the loop ends */
  datatype LoopEnd = LoopEnd(stop: Stop, line: Line, scan: Scan, image: Image, parsed: seq<seq<byte>>)

  /** The receive loop, while (HAL_GetTick() < timeout), from line l, variables s and image im */
  function ReceiveLoop(l: Line, s: Scan, im: Image, txOutcome: nat -> bool): (r: LoopEnd)
    requires ScanOk(s) && |im.bytes| == APP_SIZE
    ensures ScanOk(r.scan) && |r.image.bytes| == APP_SIZE
    decreases |l.rx|, TicksLeft(l, s.timeout)
  {
    if l.clock >= s.timeout then LoopEnd(TimedOut, l, s, im, [])
    else
      var p := Iteration(l, s, im, txOutcome);
      if p.stop.Some? then LoopEnd(p.stop.value, p.line, p.scan, p.image, p.parsed)
      else
        var r := ReceiveLoop(p.line, p.scan, p.image, txOutcome);
        LoopEnd(r.stop, r.line, r.scan, r.image, p.parsed + r.parsed)
  }

  /** Two ends of the loop that agree on all but the parsed frames */
  predicate SameEnd(a: LoopEnd, b: LoopEnd) {
    a.stop == b.stop && a.line == b.line && a.scan == b.scan && a.image == b.image
  }

  /** Before the deadline the loop makes one pass and ends there, if the pass stops it, or else goes on from it */
  lemma ReceiveLoopStep(l: Line, s: Scan, im: Image, txOutcome: nat -> bool, r0: LoopEnd)
    requires ScanOk(s) && |im.bytes| == APP_SIZE && l.clock < s.timeout
    requires SameEnd(ReceiveLoop(l, s, im, txOutcome), r0)
    ensures var p := Iteration(l, s, im, txOutcome);
      && (p.stop.Some? ==> r0.stop == p.stop.value && r0.line == p.line && r0.scan == p.scan && r0.image == p.image)
      && (p.stop.None? ==> SameEnd(ReceiveLoop(p.line, p.scan, p.image, txOutcome), r0))
  {
  }

  /** Once the deadline has passed the loop ends as it is, timed out */
  lemma ReceiveLoopTimesOut(l: Line, s: Scan, im: Image, txOutcome: nat -> bool, r0: LoopEnd)
    requires ScanOk(s) && |im.bytes| == APP_SIZE && l.clock >= s.timeout
    requires SameEnd(ReceiveLoop(l, s, im, txOutcome), r0)
    ensures r0.stop == TimedOut && r0.line == l && r0.scan == s && r0.image == im
  {
  }

  /**
    The image and the line after the loop: the image is the original one
    with the parsed frames applied in order, every parsed frame passed its
    checksum, and exactly one "OK" was sent per parsed frame.
   */
  lemma {:induction false} ReceiveLoopParses(l: Line, s: Scan, im: Image, txOutcome: nat -> bool)
    requires ScanOk(s) && |im.bytes| == APP_SIZE
    ensures var r := ReceiveLoop(l, s, im, txOutcome);
      && r.line.clock >= l.clock
      && Parsable(r.parsed)
      && r.image == Image(ParseAll(im.bytes, r.parsed), FinalOffset(im.offset, r.parsed))
      && Acks(l.sent, r.line.sent, |r.parsed|)
    decreases |l.rx|, TicksLeft(l, s.timeout)
  {
    if l.clock < s.timeout {
      var p := Iteration(l, s, im, txOutcome);
      IterationParses(l, s, im, txOutcome);
      IterationAcks(l, s, im, txOutcome);
      if p.stop.None? {
        var r := ReceiveLoop(p.line, p.scan, p.image, txOutcome);
        ReceiveLoopParses(p.line, p.scan, p.image, txOutcome);
        ParsableAppend(im.bytes, im.offset, p.parsed, r.parsed);
        AcksAppend(l.sent, p.line.sent, r.line.sent, |p.parsed|, |r.parsed|);
      }
    }
  }

  /**
    Why the loop ended, first part: it times out only once the deadline has
    passed, and a checksum failure stops it with the failing frame in the
    buffer.
   */
  lemma {:induction false} ReceiveLoopRefuses(l: Line, s: Scan, im: Image, txOutcome: nat -> bool)
    requires ScanOk(s) && |im.bytes| == APP_SIZE
    ensures var r := ReceiveLoop(l, s, im, txOutcome);
      && (r.stop == TimedOut ==> r.line.clock >= r.scan.timeout)
      && (r.stop == BadChecksum ==> r.scan.count >= 1 && !ChecksumValid(r.scan.frame[..r.scan.count]))
    decreases |l.rx|, TicksLeft(l, s.timeout)
  {
    if l.clock < s.timeout {
      var p := Iteration(l, s, im, txOutcome);
      if p.stop.Some? {
        IterationStops(l, s, im, txOutcome);
      } else {
        ReceiveLoopRefuses(p.line, p.scan, p.image, txOutcome);
      }
    }
  }

  /**
    Why the loop ended, second part: the end marker stops it once that frame
    was parsed and its "OK" went out.
   */
  lemma {:induction false} ReceiveLoopCompletes(l: Line, s: Scan, im: Image, txOutcome: nat -> bool)
    requires ScanOk(s) && |im.bytes| == APP_SIZE
    ensures var r := ReceiveLoop(l, s, im, txOutcome);
      r.stop == Complete ==>
        && r.parsed != [] && r.parsed[|r.parsed| - 1] == r.scan.frame
        && r.scan.count >= 1 && IsEndMarker(r.scan) && LastSent(r.line.sent, txOutcome, true)
    decreases |l.rx|, TicksLeft(l, s.timeout)
  {
    if l.clock < s.timeout {
      var p := Iteration(l, s, im, txOutcome);
      if p.stop.Some? {
        IterationStops(l, s, im, txOutcome);
      } else {
        var r := ReceiveLoop(p.line, p.scan, p.image, txOutcome);
        ReceiveLoopCompletes(p.line, p.scan, p.image, txOutcome);
        if r.stop == Complete {
          assert (p.parsed + r.parsed)[|p.parsed + r.parsed| - 1] == r.parsed[|r.parsed| - 1];
        }
      }
    }
  }

  /** Why the loop ended, third part: a failed acknowledgement stops it after the frame was parsed */
  lemma {:induction false} ReceiveLoopAckFails(l: Line, s: Scan, im: Image, txOutcome: nat -> bool)
    requires ScanOk(s) && |im.bytes| == APP_SIZE
    ensures var r := ReceiveLoop(l, s, im, txOutcome);
      r.stop == AckFailed ==> r.parsed != [] && LastSent(r.line.sent, txOutcome, false)
    decreases |l.rx|, TicksLeft(l, s.timeout)
  {
    if l.clock < s.timeout {
      var p := Iteration(l, s, im, txOutcome);
      if p.stop.Some? {
        IterationStops(l, s, im, txOutcome);
      } else {
        ReceiveLoopAckFails(p.line, p.scan, p.image, txOutcome);
      }
    }
  }

  // ------------------------------------------------------------------
  // The commit

  /** The largest image offset for which the uint16 double-word index of Flash does not wrap */
  const MAX_IMAGE_OFFSET: nat := 65528

  /** What STM32_Bootloader_DFU ends with */
  datatype Outcome =
    | LoopFailed(why: Stop)  // the receive loop ended without the end marker (why != Complete)
    | IndexWraps             // image offset past MAX_IMAGE_OFFSET: the uint16_t index of Flash would wrap
    | ImageNotWritten        // Flash of the image failed
    | UnknownSlot            // newAppBaseAddr is neither slot
    | VaultNotWritten        // Flash of the vault failed
    | Installed              // both written: the device resets into the new image

  /** The HAL calls of the commit phase, those of the image's Flash call and then the vault's, and the vault */
  datatype Commit = Commit(outcome: Outcome, imageLog: seq<HalCall>, vaultLog: seq<HalCall>, vault: seq<byte>)

  /** The calls of Flash(image, target, offset) from HAL call k */
  function ImageCalls(base: int, pageSize: nat, outcome: nat -> bool, k: nat, tries: nat, image: Image, target: int): seq<HalCall>
    requires pageSize > 0 && |image.bytes| == APP_SIZE && image.offset <= MAX_IMAGE_OFFSET
  {
    FlashCalls(base, pageSize, outcome, k, tries, image.bytes, target, image.offset)
  }

  /** The calls of Flash(vault, VAULT_ADDRESS, 24) from HAL call k */
  function VaultCalls(base: int, pageSize: nat, outcome: nat -> bool, k: nat, tries: nat, vault: seq<byte>): seq<HalCall>
    requires pageSize > 0 && |vault| == VAULT_SIZE
  {
    FlashCalls(base, pageSize, outcome, k, tries, vault, VaultAddress(base), VAULT_SIZE)
  }

  /**
    After the end marker: program the image into `target`; only if that
    succeeds, record the target and the new version in the vault and
    program the vault, in one 24-byte Flash call.
   */
  function CommitUpdate(base: int, pageSize: nat, outcome: nat -> bool, k: nat, tries: nat, image: Image, target: int,
                        vault: seq<byte>, version: seq<byte>): (c: Commit)
    requires pageSize > 0 && |image.bytes| == APP_SIZE && |vault| == VAULT_SIZE && |version| == VERSION_SIZE
    ensures |c.vault| == VAULT_SIZE
  {
    if image.offset > MAX_IMAGE_OFFSET then Commit(IndexWraps, [], [], vault)
    else
      var imageLog := ImageCalls(base, pageSize, outcome, k, tries, image, target);
      if !FlashOk(base, pageSize, outcome, k, tries, image.bytes, target, image.offset) then
        Commit(ImageNotWritten, imageLog, [], vault)
      else match Committed(vault, target, base, version)
        case None => Commit(UnknownSlot, imageLog, [], vault)
        case Some(w) =>
          var vaultLog := VaultCalls(base, pageSize, outcome, k + |imageLog|, tries, w);
          var written := FlashOk(base, pageSize, outcome, k + |imageLog|, tries, w, VaultAddress(base), VAULT_SIZE);
          Commit(if written then Installed else VaultNotWritten, imageLog, vaultLog, w)
  }

  /**
    The vault is written only after the image: the commit's calls start with
    those of the image; if the image fails, or the target is no slot, they are
    nothing more and the vault is unchanged; otherwise they are followed by
    exactly one Flash of the updated vault, and the update is installed
    exactly when that succeeds.
   */
  lemma CommitOrder(base: int, pageSize: nat, outcome: nat -> bool, k: nat, tries: nat, image: Image, target: int,
                    vault: seq<byte>, version: seq<byte>)
    requires pageSize > 0 && |image.bytes| == APP_SIZE && |vault| == VAULT_SIZE && |version| == VERSION_SIZE
    requires image.offset <= MAX_IMAGE_OFFSET
    ensures var c := CommitUpdate(base, pageSize, outcome, k, tries, image, target, vault, version);
      var imageLog := ImageCalls(base, pageSize, outcome, k, tries, image, target);
      var imageOk := FlashOk(base, pageSize, outcome, k, tries, image.bytes, target, image.offset);
      && c.imageLog == imageLog
      && (!imageOk || SlotByte(target, base).None? ==> c.vaultLog == [] && c.vault == vault && c.outcome != Installed)
      && (imageOk && SlotByte(target, base).Some? ==>
            && Committed(vault, target, base, version) == Some(c.vault)
            && c.vaultLog == VaultCalls(base, pageSize, outcome, k + |imageLog|, tries, c.vault)
            && (c.outcome == Installed <==>
                  FlashOk(base, pageSize, outcome, k + |imageLog|, tries, c.vault, VaultAddress(base), VAULT_SIZE)))
  {
    var imageLog := ImageCalls(base, pageSize, outcome, k, tries, image, target);
    assert imageLog + [] == imageLog;
  }

  /** A commit whose image Flash call, from log h0 and flash f0 to h and f, failed */
  lemma CommitImageFailed(base: int, pageSize: nat, outcome: nat -> bool, tries: nat, image: Image, target: int,
                          vault: seq<byte>, version: seq<byte>, c: Commit, h0: seq<HalCall>, f0: Flash, h: seq<HalCall>, f: Flash)
    requires pageSize > 0 && |image.bytes| == APP_SIZE && |vault| == VAULT_SIZE && |version| == VERSION_SIZE
    requires image.offset <= MAX_IMAGE_OFFSET
    requires c == CommitUpdate(base, pageSize, outcome, |h0|, tries, image, target, vault, version)
    requires !FlashOk(base, pageSize, outcome, |h0|, tries, image.bytes, target, image.offset)
    requires h == h0 + FlashCalls(base, pageSize, outcome, |h0|, tries, image.bytes, target, image.offset)
    requires f == ApplyLog(base, pageSize, f0, FlashCalls(base, pageSize, outcome, |h0|, tries, image.bytes, target, image.offset))
    ensures c.outcome == ImageNotWritten && c.vault == vault
    ensures h == h0 + c.imageLog + c.vaultLog && f == ApplyLog(base, pageSize, ApplyLog(base, pageSize, f0, c.imageLog), c.vaultLog)
  {
    assert h + [] == h;
  }

  /** A commit whose image was written, from log h0 and flash f0 to h and f, to a target that is no slot */
  lemma CommitNoSlot(base: int, pageSize: nat, outcome: nat -> bool, tries: nat, image: Image, target: int,
                     vault: seq<byte>, version: seq<byte>, c: Commit, h0: seq<HalCall>, f0: Flash, h: seq<HalCall>, f: Flash)
    requires pageSize > 0 && |image.bytes| == APP_SIZE && |vault| == VAULT_SIZE && |version| == VERSION_SIZE
    requires image.offset <= MAX_IMAGE_OFFSET
    requires c == CommitUpdate(base, pageSize, outcome, |h0|, tries, image, target, vault, version)
    requires FlashOk(base, pageSize, outcome, |h0|, tries, image.bytes, target, image.offset)
    requires Committed(vault, target, base, version).None?
    requires h == h0 + FlashCalls(base, pageSize, outcome, |h0|, tries, image.bytes, target, image.offset)
    requires f == ApplyLog(base, pageSize, f0, FlashCalls(base, pageSize, outcome, |h0|, tries, image.bytes, target, image.offset))
    ensures c.outcome == UnknownSlot && c.vault == vault
    ensures h == h0 + c.imageLog + c.vaultLog && f == ApplyLog(base, pageSize, ApplyLog(base, pageSize, f0, c.imageLog), c.vaultLog)
  {
    assert h + [] == h;
  }

  /**
    A commit whose image was written from HAL call k0 on, and whose vault w
    was then flashed from call k1 on, with result ok
   */
  lemma CommitVaultFlashed(base: int, pageSize: nat, outcome: nat -> bool, tries: nat, image: Image, target: int,
                           vault: seq<byte>, version: seq<byte>, c: Commit, w: seq<byte>, ok: bool, k0: nat, k1: nat)
    requires pageSize > 0 && |image.bytes| == APP_SIZE && |vault| == VAULT_SIZE && |version| == VERSION_SIZE
    requires image.offset <= MAX_IMAGE_OFFSET && |w| == VAULT_SIZE
    requires c == CommitUpdate(base, pageSize, outcome, k0, tries, image, target, vault, version)
    requires FlashOk(base, pageSize, outcome, k0, tries, image.bytes, target, image.offset)
    requires Committed(vault, target, base, version) == Some(w)
    requires k1 == k0 + |FlashCalls(base, pageSize, outcome, k0, tries, image.bytes, target, image.offset)|
    requires ok == FlashOk(base, pageSize, outcome, k1, tries, w, VaultAddress(base), VAULT_SIZE)
    ensures c.outcome == (if ok then Installed else VaultNotWritten) && c.vault == w
    ensures c.imageLog == FlashCalls(base, pageSize, outcome, k0, tries, image.bytes, target, image.offset)
    ensures c.vaultLog == FlashCalls(base, pageSize, outcome, k1, tries, w, VaultAddress(base), VAULT_SIZE)
  {
  }

  /** Page arithmetic: a page that starts at or below 0x10000 ends by 0x10000 + pageSize */
  lemma VaultPagesEnd(pageSize: nat)
    requires 0 < pageSize <= VAULT_OFFSET - VAULT_SIZE
    ensures (VAULT_OFFSET / pageSize + VAULT_SIZE / pageSize + 1) * pageSize <= APP_OFFSET_A
  {
    var p, n := VAULT_OFFSET / pageSize, VAULT_SIZE / pageSize;
    assert p * pageSize <= VAULT_OFFSET;
    assert n * pageSize <= VAULT_SIZE;
    assert (p + n + 1) * pageSize == p * pageSize + n * pageSize + pageSize;
  }

  /** The vault's Flash call leaves both slots alone when a page is at most 0x10000 - 24 bytes */
  lemma VaultCallsMissSlots(base: int, pageSize: nat, f: Flash, outcome: nat -> bool, k: nat, tries: nat,
                            w: seq<byte>, a: int)
    requires 0 < pageSize <= VAULT_OFFSET - VAULT_SIZE && |w| == VAULT_SIZE && tries > 0
    requires AddressA(base) <= a
    ensures Read(ApplyLog(base, pageSize, f, FlashCalls(base, pageSize, outcome, k, tries, w, VaultAddress(base), VAULT_SIZE)), a)
            == Read(f, a)
  {
    var page, pages := ErasePage(base, pageSize, VaultAddress(base)), ErasePages(pageSize, VAULT_SIZE);
    assert page == VAULT_OFFSET / pageSize;
    VaultPagesEnd(pageSize);
    assert !InPages(base, pageSize, page, pages, a);
    FlashFrame(base, pageSize, f, outcome, k, tries, w, VaultAddress(base), VAULT_SIZE, a);
  }

  /** Bytes programmed into a slot before the vault's Flash call still read back after it */
  lemma ImageSurvives(base: int, pageSize: nat, f1: Flash, vaultLog: seq<HalCall>, outcome: nat -> bool, k: nat, tries: nat,
                      w: seq<byte>, target: int, data: seq<byte>, offset: nat)
    requires 0 < pageSize <= VAULT_OFFSET - VAULT_SIZE && |w| == VAULT_SIZE && tries > 0
    requires vaultLog == VaultCalls(base, pageSize, outcome, k, tries, w)
    requires offset <= |data| && AddressA(base) <= target && ReadBytes(f1, target, offset) == data[..offset]
    ensures ReadBytes(ApplyLog(base, pageSize, f1, vaultLog), target, offset) == data[..offset]
  {
    var g := ApplyLog(base, pageSize, f1, vaultLog);
    forall j | 0 <= j < offset ensures ReadBytes(g, target, offset)[j] == data[j] {
      VaultCallsMissSlots(base, pageSize, f1, outcome, k, tries, w, target + j);
      assert Read(f1, target + j) == ReadBytes(f1, target, offset)[j];
    }
  }

  /** A successful vault Flash call leaves the vault at the vault address */
  lemma VaultWritten(base: int, pageSize: nat, f1: Flash, vaultLog: seq<HalCall>, outcome: nat -> bool, k: nat, tries: nat,
                     w: seq<byte>)
    requires pageSize > 0 && |w| == VAULT_SIZE
    requires vaultLog == VaultCalls(base, pageSize, outcome, k, tries, w)
    requires FlashOk(base, pageSize, outcome, k, tries, w, VaultAddress(base), VAULT_SIZE)
    ensures ReadBytes(ApplyLog(base, pageSize, f1, vaultLog), VaultAddress(base), VAULT_SIZE) == w
  {
    FlashWrites(base, pageSize, f1, outcome, k, tries, w, VaultAddress(base), VAULT_SIZE);
    assert w[..VAULT_SIZE] == w;
  }

  /** What an installed commit did: the image's Flash call, then the vault's, both successful */
  lemma InstalledCommit(base: int, pageSize: nat, outcome: nat -> bool, k: nat, tries: nat, image: Image, target: int,
                        vault: seq<byte>, version: seq<byte>, c: Commit)
    requires pageSize > 0 && |image.bytes| == APP_SIZE && |vault| == VAULT_SIZE && |version| == VERSION_SIZE
    requires c == CommitUpdate(base, pageSize, outcome, k, tries, image, target, vault, version) && c.outcome == Installed
    ensures image.offset <= MAX_IMAGE_OFFSET && AddressA(base) <= target && |c.vault| == VAULT_SIZE
    ensures c.imageLog == ImageCalls(base, pageSize, outcome, k, tries, image, target)
    ensures FlashOk(base, pageSize, outcome, k, tries, image.bytes, target, image.offset)
    ensures c.vaultLog == VaultCalls(base, pageSize, outcome, k + |c.imageLog|, tries, c.vault)
    ensures FlashOk(base, pageSize, outcome, k + |c.imageLog|, tries, c.vault, VaultAddress(base), VAULT_SIZE)
  {
  }

  /** A successful image Flash call leaves the image, up to its offset, at the target */
  lemma ImageWritten(base: int, pageSize: nat, f: Flash, imageLog: seq<HalCall>, outcome: nat -> bool, k: nat, tries: nat,
                     image: Image, target: int)
    requires pageSize > 0 && |image.bytes| == APP_SIZE && image.offset <= MAX_IMAGE_OFFSET
    requires imageLog == ImageCalls(base, pageSize, outcome, k, tries, image, target)
    requires FlashOk(base, pageSize, outcome, k, tries, image.bytes, target, image.offset)
    ensures ReadBytes(ApplyLog(base, pageSize, f, imageLog), target, image.offset) == image.bytes[..image.offset]
  {
    FlashWrites(base, pageSize, f, outcome, k, tries, image.bytes, target, image.offset);
  }

  /**
    Round trip of an installed update, the vault: flash then holds the new
    vault at the vault address.
   */
  lemma CommitWritesVault(base: int, pageSize: nat, f: Flash, outcome: nat -> bool, k: nat, tries: nat, image: Image,
                          target: int, vault: seq<byte>, version: seq<byte>, c: Commit)
    requires pageSize > 0
    requires |image.bytes| == APP_SIZE && |vault| == VAULT_SIZE && |version| == VERSION_SIZE
    requires c == CommitUpdate(base, pageSize, outcome, k, tries, image, target, vault, version) && c.outcome == Installed
    ensures ReadBytes(ApplyLog(base, pageSize, ApplyLog(base, pageSize, f, c.imageLog), c.vaultLog), VaultAddress(base), VAULT_SIZE)
            == c.vault
  {
    InstalledCommit(base, pageSize, outcome, k, tries, image, target, vault, version, c);
    VaultStaysWritten(base, pageSize, f, c.imageLog, c.vaultLog, outcome, k, tries, c.vault);
  }

  /** The image's Flash call, then the vault's, leave the vault at the vault address */
  lemma VaultStaysWritten(base: int, pageSize: nat, f: Flash, imageLog: seq<HalCall>, vaultLog: seq<HalCall>,
                          outcome: nat -> bool, k: nat, tries: nat, w: seq<byte>)
    requires pageSize > 0 && |w| == VAULT_SIZE
    requires vaultLog == VaultCalls(base, pageSize, outcome, k + |imageLog|, tries, w)
    requires FlashOk(base, pageSize, outcome, k + |imageLog|, tries, w, VaultAddress(base), VAULT_SIZE)
    ensures ReadBytes(ApplyLog(base, pageSize, ApplyLog(base, pageSize, f, imageLog), vaultLog), VaultAddress(base), VAULT_SIZE) == w
  {
    VaultWritten(base, pageSize, ApplyLog(base, pageSize, f, imageLog), vaultLog, outcome, k + |imageLog|, tries, w);
  }

  /**
    Round trip of an installed update, the image: flash then holds the
    image, up to its offset, at the target slot. The vault's erase stays
    below both slots when a page is at most 0x10000 - 24 bytes.
   */
  lemma CommitWritesImage(base: int, pageSize: nat, f: Flash, outcome: nat -> bool, k: nat, tries: nat, image: Image,
                          target: int, vault: seq<byte>, version: seq<byte>, c: Commit)
    requires 0 < pageSize <= VAULT_OFFSET - VAULT_SIZE && tries > 0
    requires |image.bytes| == APP_SIZE && |vault| == VAULT_SIZE && |version| == VERSION_SIZE
    requires c == CommitUpdate(base, pageSize, outcome, k, tries, image, target, vault, version) && c.outcome == Installed
    ensures ReadBytes(ApplyLog(base, pageSize, ApplyLog(base, pageSize, f, c.imageLog), c.vaultLog), target, image.offset)
            == image.bytes[..image.offset]
  {
    InstalledCommit(base, pageSize, outcome, k, tries, image, target, vault, version, c);
    ImageStaysWritten(base, pageSize, f, c.imageLog, c.vaultLog, outcome, k, tries, image, target, c.vault);
  }

  /** The image's Flash call, then the vault's, leave the image at the target */
  lemma ImageStaysWritten(base: int, pageSize: nat, f: Flash, imageLog: seq<HalCall>, vaultLog: seq<HalCall>,
                          outcome: nat -> bool, k: nat, tries: nat, image: Image, target: int, w: seq<byte>)
    requires 0 < pageSize <= VAULT_OFFSET - VAULT_SIZE && tries > 0 && |w| == VAULT_SIZE
    requires |image.bytes| == APP_SIZE && image.offset <= MAX_IMAGE_OFFSET && AddressA(base) <= target
    requires imageLog == ImageCalls(base, pageSize, outcome, k, tries, image, target)
    requires FlashOk(base, pageSize, outcome, k, tries, image.bytes, target, image.offset)
    requires vaultLog == VaultCalls(base, pageSize, outcome, k + |imageLog|, tries, w)
    ensures ReadBytes(ApplyLog(base, pageSize, ApplyLog(base, pageSize, f, imageLog), vaultLog), target, image.offset)
            == image.bytes[..image.offset]
  {
    ImageWritten(base, pageSize, f, imageLog, outcome, k, tries, image, target);
    ImageSurvives(base, pageSize, ApplyLog(base, pageSize, f, imageLog), vaultLog, outcome, k + |imageLog|, tries,
                  w, target, image.bytes, image.offset);
  }

  /**
    An update of the candidate slot that is installed swaps the slots: the
    new vault runs the updated slot with the new version and still holds the
    version of the slot that ran before.
   */
  lemma CommitSwaps(base: int, pageSize: nat, outcome: nat -> bool, k: nat, tries: nat, image: Image,
                    vault: seq<byte>, version: seq<byte>)
    requires pageSize > 0 && |image.bytes| == APP_SIZE && |vault| == VAULT_SIZE && |version| == VERSION_SIZE
    requires Resolve(vault, base).Some?
    requires CommitUpdate(base, pageSize, outcome, k, tries, image, Resolve(vault, base).value.candidate, vault, version).outcome == Installed
    ensures var s := Resolve(vault, base).value;
      var c := CommitUpdate(base, pageSize, outcome, k, tries, image, s.candidate, vault, version);
      && Resolve(c.vault, base) == Some(Slots(s.candidate, s.current, version))
      && VersionOf(c.vault, vault[0]) == VersionOf(vault, vault[0])
  {
    CommitSwapsSlots(vault, base, version);
  }

  // ------------------------------------------------------------------
  // The whole update

  /** What STM32_Bootloader_DFU leaves: its outcome, the line, newApp, the HAL calls of its two Flash calls and the vault */
  datatype Update = Update(outcome: Outcome, line: Line, image: Image, imageLog: seq<HalCall>, vaultLog: seq<HalCall>,
                           vault: seq<byte>)

  /**
    STM32_Bootloader_DFU, started on line l with the buffer frame holding
    `stale` (the uninitialised local array), the pending image im, the vault
    and the accepted version, updating slot `target` from HAL call k on.
   */
  function RunUpdate(l: Line, stale: seq<byte>, im: Image, vault: seq<byte>, version: seq<byte>, target: int,
                     base: int, pageSize: nat, outcome: nat -> bool, k: nat, tries: nat, txOutcome: nat -> bool): (u: Update)
    requires |stale| == FRAME_SIZE && |im.bytes| == APP_SIZE && |vault| == VAULT_SIZE && |version| == VERSION_SIZE
    requires pageSize > 0
    ensures |u.image.bytes| == APP_SIZE && |u.vault| == VAULT_SIZE
    // nothing is erased or programmed, and the vault is untouched, unless the end marker arrived
    ensures u.outcome.LoopFailed? ==> u.outcome.why != Complete && u.imageLog == [] && u.vaultLog == [] && u.vault == vault
    ensures u.outcome == Installed ==> Committed(vault, target, base, version) == Some(u.vault)
  {
    var run := ReceiveLoop(l, Scan(stale, 0, false, l.clock + BOOT_TIMEOUT), im, txOutcome);
    if run.stop != Complete then Update(LoopFailed(run.stop), run.line, run.image, [], [], vault)
    else
      var c := CommitUpdate(base, pageSize, outcome, k, tries, run.image, target, vault, version);
      Update(c.outcome, run.line, run.image, c.imageLog, c.vaultLog, c.vault)
  }

  /**
    Round trip of a whole installed update: starting from flash f, the HAL
    calls of the two Flash calls leave the new vault at the vault address
    and the received image, up to its offset, in the target slot.
   */
  lemma UpdateWritesFlash(l: Line, stale: seq<byte>, im: Image, vault: seq<byte>, version: seq<byte>, target: int,
                          base: int, pageSize: nat, f: Flash, outcome: nat -> bool, k: nat, tries: nat,
                          txOutcome: nat -> bool, u: Update)
    requires |stale| == FRAME_SIZE && |im.bytes| == APP_SIZE && |vault| == VAULT_SIZE && |version| == VERSION_SIZE
    requires 0 < pageSize <= VAULT_OFFSET - VAULT_SIZE && tries > 0
    requires u == RunUpdate(l, stale, im, vault, version, target, base, pageSize, outcome, k, tries, txOutcome)
    requires u.outcome == Installed
    ensures ReadBytes(ApplyLog(base, pageSize, ApplyLog(base, pageSize, f, u.imageLog), u.vaultLog), VaultAddress(base),
                      VAULT_SIZE) == u.vault
    ensures ReadBytes(ApplyLog(base, pageSize, ApplyLog(base, pageSize, f, u.imageLog), u.vaultLog), target,
                      u.image.offset) == u.image.bytes[..u.image.offset]
  {
    var run := ReceiveLoop(l, Scan(stale, 0, false, l.clock + BOOT_TIMEOUT), im, txOutcome);
    var c := CommitUpdate(base, pageSize, outcome, k, tries, run.image, target, vault, version);
    CommitWritesVault(base, pageSize, f, outcome, k, tries, run.image, target, vault, version, c);
    CommitWritesImage(base, pageSize, f, outcome, k, tries, run.image, target, vault, version, c);
  }
}
