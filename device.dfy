/**
  The bootloader as the C code runs it: its globals as the fields of one
  object, and STM32_Bootloader_Checksum, _Parse, _Flash, _DFU, _Init and
  _Process as methods that update them step by step. Each method is proved
  against the functions of the other modules: what it leaves behind, its
  HAL calls and the bytes it sends are exactly what those functions give.

  The device around the bootloader is fixed when the object is made:
  FLASH_BASE, FLASH_PAGE_SIZE, the outcome of every HAL flash call (by call
  number) and of every UART transmit (by message number).
 */
module Device {
  import opened Bytes
  import opened Frame
  import opened FlashLog
  import opened Vault
  import opened Uart
  import opened Session
  import opened Dfu
  import opened Commands
  import opened Startup

  class Bootloader {
    // the device
    const base: int
    const pageSize: nat
    const retries: nat                    // FLASH_RETRY
    const halOutcome: nat -> bool         // HAL_OK or not, for flash call number j
    const txOutcome: nat -> bool          // HAL_UART_Transmit's result, for message number j

    // the globals of stm32_bootloader.c
    const propertyVault: array<byte>      // uint8_t propertyVault[VAULT_HEIGHT][VAULT_WIDTH], row by row
    const currentAppVersion: array<byte>
    const newAppVersion: array<byte>
    const newApp: array<byte>             // uint8_t newApp[APP_HEIGHT][APP_WIDTH], row by row
    var currentAppBaseAddr: int
    var newAppBaseAddr: int
    var newAppOffset: nat

    // the world the bootloader acts on
    var flash: Flash
    var halLog: seq<HalCall>              // every HAL flash call made, oldest first
    var line: Line

    predicate Valid() {
      && propertyVault.Length == VAULT_SIZE
      && currentAppVersion.Length == VERSION_SIZE
      && newAppVersion.Length == VERSION_SIZE
      && newApp.Length == APP_SIZE
      // the four globals are distinct arrays
      && propertyVault != currentAppVersion && propertyVault != newAppVersion && propertyVault != newApp
      && currentAppVersion != newAppVersion && currentAppVersion != newApp && newAppVersion != newApp
      && 0 < pageSize <= VAULT_OFFSET - VAULT_SIZE
      && retries == FLASH_RETRY
    }

    /** The globals start zeroed, as C's static storage does */
    constructor (base: int, pageSize: nat, halOutcome: nat -> bool, txOutcome: nat -> bool, flash: Flash, line: Line)
      requires 0 < pageSize <= VAULT_OFFSET - VAULT_SIZE
      ensures Valid()
      ensures this.base == base && this.pageSize == pageSize
      ensures this.halOutcome == halOutcome && this.txOutcome == txOutcome
      ensures this.flash == flash && this.line == line && halLog == []
      ensures propertyVault[..] == seq(VAULT_SIZE, _ => 0) && newApp[..] == seq(APP_SIZE, _ => 0)
      ensures currentAppVersion[..] == [0, 0, 0] && newAppVersion[..] == [0, 0, 0]
      ensures currentAppBaseAddr == 0 && newAppBaseAddr == 0 && newAppOffset == 0
    {
      this.base, this.pageSize, this.retries := base, pageSize, FLASH_RETRY;
      this.halOutcome, this.txOutcome := halOutcome, txOutcome;
      propertyVault := new byte[VAULT_SIZE](_ => 0);
      currentAppVersion := new byte[VERSION_SIZE](_ => 0);
      newAppVersion := new byte[VERSION_SIZE](_ => 0);
      newApp := new byte[APP_SIZE](_ => 0);
      currentAppBaseAddr, newAppBaseAddr, newAppOffset := 0, 0, 0;
      this.flash, this.halLog, this.line := flash, [], line;
      new;
      assert propertyVault[..] == seq(VAULT_SIZE, _ => 0);
      assert newApp[..] == seq(APP_SIZE, _ => 0);
      assert currentAppVersion[..] == [0, 0, 0] && newAppVersion[..] == [0, 0, 0];
    }

    // ------------------------------------------------------------------
    // The UART and memory primitives

    /** HAL_UART_Receive of n bytes, with UART_TIMEOUT */
    method Recv(n: nat) returns (ok: bool, data: seq<byte>)
      modifies this`line
      ensures ok == Receive(old(line), n).ok && data == Receive(old(line), n).data && line == Receive(old(line), n).line
    {
      var r := Receive(line, n);
      ok, data, line := r.ok, r.data, r.line;
    }

    /** HAL_UART_Transmit of `data`, with UART_TIMEOUT */
    method Send(data: seq<byte>) returns (ok: bool)
      modifies this`line
      ensures ok == Transmit(old(line), data, txOutcome).ok && line == Transmit(old(line), data, txOutcome).line
    {
      var t := Transmit(line, data, txOutcome);
      ok, line := t.ok, t.line;
    }

    /** memcpy(dst + d, src, n) for src of n bytes */
    static method Copy(dst: array<byte>, d: nat, src: seq<byte>)
      requires d + |src| <= dst.Length
      modifies dst
      ensures dst[..] == old(dst[..])[..d] + src + old(dst[..])[d + |src|..]
    {
      for j := 0 to |src|
        invariant forall k :: 0 <= k < dst.Length ==>
          dst[k] == if d <= k < d + j then src[k - d] else old(dst[k])
      {
        dst[d + j] := src[j];
      }
    }

    /** *(uint64_t *)propertyVault[row] = value: the little-endian store of a 64-bit word into a row */
    method StoreWord(row: nat, value: nat)
      requires Valid() && row < VAULT_HEIGHT && value < 0x1_0000_0000_0000_0000
      modifies propertyVault
      ensures propertyVault[..] == old(propertyVault[..])[..RowStart(row)] + LeBytes(value, VAULT_WIDTH)
                                   + old(propertyVault[..])[RowStart(row) + VAULT_WIDTH..]
    {
      Copy(propertyVault, RowStart(row), LeBytes(value, VAULT_WIDTH));
    }

    // ------------------------------------------------------------------
    // The HAL flash driver

    /** One HAL_FLASHEx_Erase or HAL_FLASH_Program call: it gets the outcome of its number and, if it succeeds, changes flash */
    method Hal(call: HalCall) returns (ok: bool)
      modifies this`flash, this`halLog
      ensures ok == halOutcome(|old(halLog)|)
      ensures halLog == old(halLog) + [WithOutcome(call, ok)]
      ensures flash == ApplyCall(base, pageSize, old(flash), WithOutcome(call, ok))
    {
      ok := halOutcome(|halLog|);
      halLog := halLog + [WithOutcome(call, ok)];
      flash := ApplyCall(base, pageSize, flash, WithOutcome(call, ok));
    }

    /** for (i = 0; i < FLASH_RETRY; i++) { status = call; if (!status) break; } */
    method Retry(call: HalCall) returns (ok: bool)
      modifies this`flash, this`halLog
      ensures halLog == old(halLog) + Retried(call, halOutcome, |old(halLog)|, retries)
      ensures ok == RetriedOk(halOutcome, |old(halLog)|, retries)
      ensures flash == ApplyLog(base, pageSize, old(flash), Retried(call, halOutcome, |old(halLog)|, retries))
    {
      ghost var k0 := |halLog|;
      ghost var failed: seq<HalCall> := [];
      RetriedFrom(call, halOutcome, k0, retries);
      ok := false;
      var j := 0;
      while j < retries
        invariant RetriedSoFar(call, halOutcome, k0, retries, failed, j) && !ok
        invariant halLog == old(halLog) + failed && flash == old(flash)
      {
        ok := Hal(call);
        if ok {
          RetriedSucceeds(base, pageSize, old(flash), flash, old(halLog), halLog, call, halOutcome, retries, failed, j);
          break;
        }
        RetriedFails(call, halOutcome, k0, retries, failed, j);
        failed := failed + [WithOutcome(call, false)];
        j := j + 1;
      }
      if !ok {
        RetriedExhausted(base, pageSize, old(flash), old(halLog), halLog, call, halOutcome, retries, failed);
      }
    }

    // ------------------------------------------------------------------
    // STM32_Bootloader_Checksum

    /**
      The checksum test over the first `length` bytes of the frame: the
      uint16_t running sum of all but the last byte, its low byte negated
      in uint8_t, compared with the last byte.
     */
    method Checksum(frame: array<byte>, length: nat) returns (ok: bool)
      requires 1 <= length <= frame.Length
      ensures ok == ChecksumValid(frame[..length])
    {
      var sum: nat := 0;
      for i := 0 to length - 1
        invariant sum == Sum(frame[..i]) % 0x10000
      {
        assert frame[..i + 1][..i] == frame[..i];
        SumMod(Sum(frame[..i]), frame[i] as nat);
        sum := (sum + frame[i] as nat) % 0x10000;
      }
      var low := sum % 256;
      var calcSum := ((0xFF - low) + 1) % 256;   // ~(sum & 0xFF) + 1, narrowed to uint8_t
      assert frame[..length][..length - 1] == frame[..length - 1];
      LowByte(Sum(frame[..length - 1]));
      ok := calcSum == frame[length - 1] as nat;
    }

    // ------------------------------------------------------------------
    // STM32_Bootloader_Parse

    /** A data record clears the 16-byte block after its own, then copies its data; other records change nothing */
    method Parse(frame: array<byte>)
      requires Valid() && frame.Length == FRAME_SIZE && ParseInBounds(frame[..])
      modifies newApp, this`newAppOffset
      ensures newApp[..] == ParsedImage(old(newApp[..]), frame[..])
      ensures newAppOffset == ParsedOffset(old(newAppOffset), frame[..])
    {
      var frameRecordType := frame[3];
      if frameRecordType == 0 {
        var n, h, w := frame[0] as nat, frame[1] as nat, frame[2] as nat;
        ghost var f := frame[..];
        assert frame != newApp;
        assert f[3] == 0 && f[0] as nat == n && f[1] as nat == h && f[2] as nat == w;
        var cl := h * APP_WIDTH + (w / 16) * 16 + FRAME_DATA_SIZE;
        var cs := h * APP_WIDTH + w;
        assert cl == ClearStart(f) && cs == CopyStart(f) && n == ByteCount(f);
        for j := 0 to FRAME_DATA_SIZE
          modifies newApp
          invariant forall k :: 0 <= k < APP_SIZE ==>
            newApp[k] == if cl <= k < cl + j then 0xFF else old(newApp[k])
        {
          newApp[cl + j] := 0xFF;
        }
        newAppOffset := h * 256 + w + FRAME_DATA_SIZE;
        for i := 0 to n
          modifies newApp
          invariant forall k :: 0 <= k < APP_SIZE ==>
            newApp[k] == if cs <= k < cs + i then frame[4 + k - cs]
                         else if cl <= k < cl + FRAME_DATA_SIZE then 0xFF
                         else old(newApp[k])
        {
          newApp[cs + i] := frame[4 + i];
        }
        assert frame[..] == f;
        assert newApp[..] == ParsedImage(old(newApp[..]), f);
      }
    }

    // ------------------------------------------------------------------
    // STM32_Bootloader_Flash

    /**
      Erase the pages from (address - FLASH_BASE) / FLASH_PAGE_SIZE on,
      offset / FLASH_PAGE_SIZE + 1 of them, then program `data` double-word
      by double-word below `offset`; every HAL call is retried up to
      FLASH_RETRY times. The calls, the flash they leave and the result are
      those FlashCalls and FlashOk give; their meaning is proved beside them.
      The uint16_t index cannot wrap while offset <= MAX_IMAGE_OFFSET.
     */
    method Flash(data: array<byte>, address: int, offset: nat) returns (ok: bool)
      requires Valid() && ProgramInBounds(data[..], offset) && offset <= MAX_IMAGE_OFFSET
      modifies this`flash, this`halLog
      ensures halLog == old(halLog) + FlashCalls(base, pageSize, halOutcome, |old(halLog)|, retries, data[..], address, offset)
      ensures flash == ApplyLog(base, pageSize, old(flash),
                                FlashCalls(base, pageSize, halOutcome, |old(halLog)|, retries, data[..], address, offset))
      ensures ok == FlashOk(base, pageSize, halOutcome, |old(halLog)|, retries, data[..], address, offset)
    {
      ghost var d := data[..];
      ghost var H := old(halLog) + FlashCalls(base, pageSize, halOutcome, |old(halLog)|, retries, d, address, offset);
      ghost var F := ApplyLog(base, pageSize, old(flash),
                              FlashCalls(base, pageSize, halOutcome, |old(halLog)|, retries, d, address, offset));
      ghost var allOk := FlashOk(base, pageSize, halOutcome, |old(halLog)|, retries, d, address, offset);
      ok := Retry(Erase(ErasePage(base, pageSize, address), ErasePages(pageSize, offset), false));
      if !ok {
        EraseFailed(base, pageSize, halOutcome, retries, d, address, offset, old(halLog), old(flash), halLog, flash);
      } else {
        EraseSucceeded(base, pageSize, halOutcome, retries, d, address, offset, old(halLog), old(flash), halLog, flash);
        var i: nat := 0;   // uint16_t: below offset + 8 <= 65536, so it never wraps
        while i < offset
          invariant i % DOUBLE_WORD == 0 && ok
          invariant ProgramSoFar(base, pageSize, halOutcome, retries, d, address, i, offset, halLog, flash, H, F, allOk)
          decreases offset - i
        {
          AlignedFits(i, |d|);
          // memcpy(&doubleWord, data + i, 8): the double-word's bytes, lowest address first
          var doubleWord := data[i..i + DOUBLE_WORD];
          ghost var h, f := halLog, flash;
          var unitOk := Retry(Program(address + i, doubleWord, false));
          if !unitOk {
            UnitFailed(base, pageSize, halOutcome, retries, d, address, i, offset, h, f, halLog, flash, H, F, allOk);
            ok := false;
            break;
          }
          UnitSucceeded(base, pageSize, halOutcome, retries, d, address, i, offset, h, f, halLog, flash, H, F, allOk);
          AlignedNext(i);
          i := i + DOUBLE_WORD;
        }
        if ok {
          ProgramDone(base, pageSize, halOutcome, retries, d, address, i, offset, halLog, flash, H, F, allOk);
        }
      }
    }

    // ------------------------------------------------------------------
    // STM32_Bootloader_DFU

    /**
      One pass of the receive loop, with frame[], count, isInFrame and
      timeout as its variables; `stop` is why the loop ends here, if it does.
      It is the pass Iteration gives.
     */
    method DfuPass(frame: array<byte>, count: nat, inFrame: bool, timeout: nat)
      returns (count': nat, inFrame': bool, timeout': nat, stop: Option<Stop>)
      requires Valid() && frame.Length == FRAME_SIZE && count <= FRAME_SIZE && frame != newApp
      modifies frame, newApp, this`newAppOffset, this`line
      ensures var p := Iteration(old(line), Scan(old(frame[..]), count, inFrame, timeout),
                                 Image(old(newApp[..]), old(newAppOffset)), txOutcome);
        && line == p.line && newApp[..] == p.image.bytes && newAppOffset == p.image.offset
        && frame[..] == p.scan.frame && count' == p.scan.count && inFrame' == p.scan.inFrame
        && timeout' == p.scan.timeout && stop == p.stop
    {
      count', inFrame', timeout', stop := count, inFrame, timeout, None;
      var ok, b := Recv(1);
      if !ok {
        return;
      }
      timeout' := line.clock + BOOT_TIMEOUT;
      if b[0] == COLON {
        inFrame' := true;
      } else if b[0] == CR {
      } else if inFrame && b[0] == LF {
        count', inFrame', stop := EndFrame(frame, count, timeout');
      } else if inFrame {
        count', stop := ReadPair(frame, count, timeout', b[0]);
      }
    }

    /** The '\n' that ends a frame of `count` bytes: the pass FrameEnd gives */
    method EndFrame(frame: array<byte>, count: nat, timeout: nat) returns (count': nat, inFrame': bool, stop: Option<Stop>)
      requires Valid() && frame.Length == FRAME_SIZE && count <= FRAME_SIZE && frame != newApp
      modifies frame, newApp, this`newAppOffset, this`line
      ensures var p := FrameEnd(old(line), Scan(old(frame[..]), count, true, timeout),
                                Image(old(newApp[..]), old(newAppOffset)), txOutcome);
        && line == p.line && newApp[..] == p.image.bytes && newAppOffset == p.image.offset
        && frame[..] == p.scan.frame && count' == p.scan.count && inFrame' == p.scan.inFrame
        && timeout == p.scan.timeout && stop == p.stop
    {
      count', inFrame', stop := count, true, None;
      if count == 0 {
        stop := Some(Overrun);             // Checksum would read frame[-1]
        return;
      }
      var valid := Checksum(frame, count);
      if !valid {
        stop := Some(BadChecksum);
        return;
      }
      if !ParseInBounds(frame[..]) {
        stop := Some(Overrun);             // Parse would write outside newApp
        return;
      }
      Parse(frame);
      var acked := Send(OK);
      if !acked {
        stop := Some(AckFailed);
        return;
      }
      if frame[0] == 0 && frame[count - 1] == 0xFF {
        stop := Some(Complete);
        return;
      }
      // memset(frame, 0xFF, FRAME_SIZE)
      for j := 0 to FRAME_SIZE
        modifies frame
        invariant forall k :: 0 <= k < j ==> frame[k] == 0xFF
      {
        frame[j] := 0xFF;
      }
      assert frame[..] == Blank();
      inFrame', count' := false, 0;
    }

    /** A first digit b inside a frame: the pass DataPair gives, which stores strtol of the pair at frame[count] */
    method ReadPair(frame: array<byte>, count: nat, timeout: nat, b: byte) returns (count': nat, stop: Option<Stop>)
      requires Valid() && frame.Length == FRAME_SIZE && count <= FRAME_SIZE && frame != newApp
      modifies frame, this`line
      ensures var p := DataPair(old(line), Scan(old(frame[..]), count, true, timeout), b, Image(newApp[..], newAppOffset));
        && line == p.line && frame[..] == p.scan.frame && count' == p.scan.count && p.scan.inFrame
        && timeout == p.scan.timeout && stop == p.stop
    {
      count', stop := count, None;
      var second, b2 := Recv(1);
      if !second {
        return;
      }
      if count == FRAME_SIZE {
        stop := Some(Overrun);             // frame[count] is past the buffer
        return;
      }
      frame[count] := ToByte(Strtol16([b, b2[0]]));
      count' := count + 1;
    }

    /**
      The receive loop, while (HAL_GetTick() < timeout), from a frame buffer
      holding whatever it holds, count 0, outside a frame and the deadline
      BOOT_TIMEOUT ticks from now: where ReceiveLoop ends.
     */
    method ReceiveFrames(frame: array<byte>) returns (stop: Stop)
      requires Valid() && frame.Length == FRAME_SIZE && frame != newApp
      modifies frame, newApp, this`newAppOffset, this`line
      ensures var r := ReceiveLoop(old(line), Scan(old(frame[..]), 0, false, old(line).clock + BOOT_TIMEOUT),
                                   Image(old(newApp[..]), old(newAppOffset)), txOutcome);
        && stop == r.stop && line == r.line && frame[..] == r.scan.frame
        && newApp[..] == r.image.bytes && newAppOffset == r.image.offset
    {
      var count: nat, inFrame := 0, false;
      var timeout: nat := line.clock + BOOT_TIMEOUT;
      ghost var r0 := ReceiveLoop(line, Scan(frame[..], count, inFrame, timeout), Image(newApp[..], newAppOffset), txOutcome);
      while line.clock < timeout
        invariant count <= FRAME_SIZE
        invariant SameEnd(ReceiveLoop(line, Scan(frame[..], count, inFrame, timeout), Image(newApp[..], newAppOffset), txOutcome), r0)
        decreases |line.rx|, TicksLeft(line, timeout)
      {
        ghost var l, sc, im := line, Scan(frame[..], count, inFrame, timeout), Image(newApp[..], newAppOffset);
        ReceiveLoopStep(l, sc, im, txOutcome, r0);
        var pass;
        count, inFrame, timeout, pass := DfuPass(frame, count, inFrame, timeout);
        if pass.Some? {
          return pass.value;
        }
      }
      ReceiveLoopTimesOut(line, Scan(frame[..], count, inFrame, timeout), Image(newApp[..], newAppOffset), txOutcome, r0);
      stop := TimedOut;
    }

    /**
      After the end marker: Flash the image into newAppBaseAddr; only then
      store the slot byte and newAppVersion in the vault and Flash it. The
      commit CommitUpdate gives.
     */
    method Commit() returns (outcome: Outcome)
      requires Valid()
      modifies propertyVault, this`flash, this`halLog
      ensures var c := CommitUpdate(base, pageSize, halOutcome, |old(halLog)|, retries, Image(newApp[..], newAppOffset),
                                    newAppBaseAddr, old(propertyVault[..]), newAppVersion[..]);
        && outcome == c.outcome && propertyVault[..] == c.vault
        && halLog == old(halLog) + c.imageLog + c.vaultLog
        && flash == ApplyLog(base, pageSize, ApplyLog(base, pageSize, old(flash), c.imageLog), c.vaultLog)
    {
      ghost var c := CommitUpdate(base, pageSize, halOutcome, |halLog|, retries, Image(newApp[..], newAppOffset),
                                  newAppBaseAddr, propertyVault[..], newAppVersion[..]);
      ghost var v0, h0, f0 := propertyVault[..], halLog, flash;
      if newAppOffset > MAX_IMAGE_OFFSET {
        assert halLog + [] + [] == halLog;
        return IndexWraps;
      }
      var ok := Flash(newApp, newAppBaseAddr, newAppOffset);
      if !ok {
        CommitImageFailed(base, pageSize, halOutcome, retries, Image(newApp[..], newAppOffset), newAppBaseAddr, v0,
                          newAppVersion[..], c, h0, f0, halLog, flash);
        return ImageNotWritten;
      }
      ghost var h1, f1 := halLog, flash;
      var known := RecordSlot();
      if !known {
        CommitNoSlot(base, pageSize, halOutcome, retries, Image(newApp[..], newAppOffset), newAppBaseAddr, v0,
                     newAppVersion[..], c, h0, f0, halLog, flash);
        return UnknownSlot;
      }
      ok := Flash(propertyVault, VaultAddress(base), VAULT_SIZE);
      CommitVaultFlashed(base, pageSize, halOutcome, retries, Image(newApp[..], newAppOffset), newAppBaseAddr, v0,
                         newAppVersion[..], c, propertyVault[..], ok, |h0|, |h1|);
      outcome := if ok then Installed else VaultNotWritten;
    }

    /**
      The vault update of a commit: newAppBaseAddr's slot byte stored as
      the 64-bit word of row 0 and newAppVersion copied into that slot's
      row; false, with the vault untouched, when it is neither slot.
     */
    method RecordSlot() returns (known: bool)
      requires Valid()
      modifies propertyVault
      ensures known == Committed(old(propertyVault[..]), newAppBaseAddr, base, newAppVersion[..]).Some?
      ensures known ==> Committed(old(propertyVault[..]), newAppBaseAddr, base, newAppVersion[..]) == Some(propertyVault[..])
      ensures !known ==> propertyVault[..] == old(propertyVault[..])
    {
      known := true;
      ghost var v0 := propertyVault[..];
      if newAppBaseAddr == AddressA(base) {
        StoreWord(0, APP_A as nat);
        ghost var v1 := propertyVault[..];
        Copy(propertyVault, RowStart(1), newAppVersion[..]);
        StoreThenCopy(v0, LeBytes(APP_A as nat, VAULT_WIDTH), v1, newAppVersion[..], RowStart(1), propertyVault[..]);
      } else if newAppBaseAddr == AddressB(base) {
        StoreWord(0, APP_B as nat);
        ghost var v1 := propertyVault[..];
        Copy(propertyVault, RowStart(2), newAppVersion[..]);
        StoreThenCopy(v0, LeBytes(APP_B as nat, VAULT_WIDTH), v1, newAppVersion[..], RowStart(2), propertyVault[..]);
      } else {
        known := false;
      }
    }

    /**
      STM32_Bootloader_DFU, whose frame buffer starts out holding `stale`:
      the update RunUpdate gives.
     */
    method Dfu(stale: seq<byte>) returns (outcome: Outcome)
      requires Valid() && |stale| == FRAME_SIZE
      modifies newApp, propertyVault, this`newAppOffset, this`line, this`flash, this`halLog
      ensures var u := RunUpdate(old(line), stale, Image(old(newApp[..]), old(newAppOffset)), old(propertyVault[..]),
                                 old(newAppVersion[..]), newAppBaseAddr, base, pageSize, halOutcome, |old(halLog)|, retries,
                                 txOutcome);
        && outcome == u.outcome && line == u.line && newApp[..] == u.image.bytes && newAppOffset == u.image.offset
        && propertyVault[..] == u.vault && halLog == old(halLog) + u.imageLog + u.vaultLog
        && flash == ApplyLog(base, pageSize, ApplyLog(base, pageSize, old(flash), u.imageLog), u.vaultLog)
      ensures newAppVersion[..] == old(newAppVersion[..])
    {
      var frame := new byte[FRAME_SIZE](i requires 0 <= i < FRAME_SIZE => stale[i]);
      assert frame[..] == stale;
      var stop := ReceiveFrames(frame);
      if stop != Complete {
        assert old(halLog) + [] + [] == old(halLog);
        return LoopFailed(stop);
      }
      outcome := Commit();
    }

    // ------------------------------------------------------------------
    // STM32_Bootloader_Process

    /**
      One pass of the command loop with deadline `timeout`: the pass
      CommandPass gives, which reads the vault and currentAppVersion and
      fills newAppVersion; `start` says the update is to begin.
     */
    method CommandStep(timeout: nat) returns (timeout': nat, start: bool)
      requires Valid()
      modifies newAppVersion, this`line
      ensures var p := CommandPass(old(line), timeout, old(propertyVault[..]), old(currentAppVersion[..]),
                                   old(newAppVersion[..]), txOutcome);
        && line == p.line && timeout' == p.timeout && newAppVersion[..] == p.newVersion && start == p.start
      ensures currentAppVersion[..] == old(currentAppVersion[..]) && propertyVault[..] == old(propertyVault[..])
    {
      timeout', start := timeout, false;
      var ok, command := Recv(COMMAND_LENGTH);
      if !ok {
        return;
      }
      timeout' := line.clock + BOOT_TIMEOUT;
      if Strncmp(command, ALL, COMMAND_LENGTH) == 0 {
        // the status reply goes out whatever the transmit returns
        var _ := Send(StatusReply(propertyVault[..]));
        return;
      }
      if Strncmp(command, DFU, COMMAND_LENGTH) != 0 {
        return;
      }
      timeout', start := ExchangeVersion(timeout');
    }

    /** After DFU: the exchange VersionExchange gives, with the new deadline t */
    method ExchangeVersion(t: nat) returns (timeout': nat, start: bool)
      requires Valid()
      modifies newAppVersion, this`line
      ensures var p := VersionExchange(old(line), t, old(currentAppVersion[..]), old(newAppVersion[..]), txOutcome);
        && line == p.line && timeout' == p.timeout && newAppVersion[..] == p.newVersion && start == p.start
      ensures currentAppVersion[..] == old(currentAppVersion[..]) && propertyVault[..] == old(propertyVault[..])
    {
      timeout', start := t, false;
      ghost var current := currentAppVersion[..];
      var confirmed := Send(OK);
      if !confirmed {
        return;
      }
      var received, token := Recv(VERSION_TOKEN_LENGTH);
      if !received {
        return;
      }
      ReadVersion(newAppVersion, VersionBuffer(token));
      assert currentAppVersion[..] == current;
      if Strncmp(newAppVersion[..], currentAppVersion[..], VERSION_SIZE) <= 0 {
        var _ := Send(NO);
        return;
      }
      start := Send(OK);
    }

    /** for (i = 0; i < VERSION_SIZE; i++) version[i] = strtol(buffer + 3 * i, NULL, 16) */
    static method ReadVersion(version: array<byte>, buffer: seq<byte>)
      requires version.Length == VERSION_SIZE && |buffer| >= 7
      modifies version
      ensures version[..] == HexTriple(buffer)
    {
      ghost var v := HexTriple(buffer);
      for i := 0 to VERSION_SIZE
        invariant version[..i] == v[..i]
      {
        var digit := ToByte(Strtol16(buffer[3 * i..]));   // narrowed to uint8_t
        HexTripleAt(buffer, i);
        version[i] := digit;
        assert version[..i + 1] == version[..i] + [digit];
      }
      assert version[..] == version[..VERSION_SIZE];
    }

    /**
      STM32_Bootloader_Process, with `stale` the contents DFU's frame buffer
      starts with: the command loop from the tick at entry plus
      BOOT_TIMEOUT, then the jump to the running slot, or the update and
      the exit it leads to. Everything it leaves is what CommandLoop and
      Conclude give.
     */
    method Process(stale: seq<byte>) returns (exit: Exit)
      requires Valid() && |stale| == FRAME_SIZE
      modifies newAppVersion, newApp, propertyVault, this`newAppOffset, this`line, this`flash, this`halLog
      ensures var c := CommandLoop(old(line), old(line).clock + BOOT_TIMEOUT, old(propertyVault[..]), old(currentAppVersion[..]),
                                old(newAppVersion[..]), txOutcome);
        var r := Conclude(c, old(propertyVault[..]), currentAppBaseAddr, newAppBaseAddr, stale,
                          Image(old(newApp[..]), old(newAppOffset)), base, pageSize, halOutcome, |old(halLog)|, retries,
                          txOutcome);
        && exit == r.exit && line == r.line && newApp[..] == r.image.bytes && newAppOffset == r.image.offset
        && propertyVault[..] == r.vault && newAppVersion[..] == r.newVersion
        && halLog == old(halLog) + r.halCalls && flash == ApplyLog(base, pageSize, old(flash), r.halCalls)
    {
      ghost var v0, cur, im0 := propertyVault[..], currentAppVersion[..], Image(newApp[..], newAppOffset);
      ghost var c0 := CommandLoop(line, line.clock + BOOT_TIMEOUT, v0, cur, newAppVersion[..], txOutcome);
      ghost var r := Conclude(c0, v0, currentAppBaseAddr, newAppBaseAddr, stale, im0, base, pageSize, halOutcome,
                              |halLog|, retries, txOutcome);
      var start := CommandRounds();
      if !start {
        assert halLog == old(halLog) + [];
        return Jump(currentAppBaseAddr);
      }
      exit := Finish(stale, c0);
    }

    /**
      The end of Process once its command loop c started a DFU:
      STM32_Bootloader_DFU, then the reset into the new image, or the
      loop's break and the jump to the running slot. What it leaves is what
      Conclude gives for c.
     */
    method Finish(stale: seq<byte>, ghost c: CmdEnd) returns (exit: Exit)
      requires Valid() && |stale| == FRAME_SIZE && c.dfu && c.line == line && c.newVersion == newAppVersion[..]
      modifies newApp, propertyVault, this`newAppOffset, this`line, this`flash, this`halLog
      ensures var r := Conclude(c, old(propertyVault[..]), currentAppBaseAddr, newAppBaseAddr, stale,
                                Image(old(newApp[..]), old(newAppOffset)), base, pageSize, halOutcome, |old(halLog)|,
                                retries, txOutcome);
        && exit == r.exit && line == r.line && newApp[..] == r.image.bytes && newAppOffset == r.image.offset
        && propertyVault[..] == r.vault && newAppVersion[..] == r.newVersion
        && halLog == old(halLog) + r.halCalls && flash == ApplyLog(base, pageSize, old(flash), r.halCalls)
    {
      ghost var u := RunUpdate(line, stale, Image(newApp[..], newAppOffset), propertyVault[..], newAppVersion[..],
                               newAppBaseAddr, base, pageSize, halOutcome, |halLog|, retries, txOutcome);
      ConcludeUpdates(c, propertyVault[..], currentAppBaseAddr, newAppBaseAddr, stale, Image(newApp[..], newAppOffset),
                      base, pageSize, halOutcome, |halLog|, retries, txOutcome, u);
      ghost var h0, f0, nv := halLog, flash, newAppVersion[..];
      var outcome := Dfu(stale);
      assert newAppVersion[..] == nv;
      assert outcome == u.outcome && line == u.line && halLog == h0 + u.imageLog + u.vaultLog;
      assert flash == ApplyLog(base, pageSize, ApplyLog(base, pageSize, f0, u.imageLog), u.vaultLog);
      AppendAssoc(h0, u.imageLog, u.vaultLog);
      exit := ExitOf(outcome, currentAppBaseAddr);
      ApplyLogAppend(base, pageSize, f0, u.imageLog, u.vaultLog);
    }

    /**
      The command loop, while (HAL_GetTick() < timeout) from the tick at
      entry plus BOOT_TIMEOUT, up to the pass that starts a DFU: where
      CommandLoop ends. It reads the vault and currentAppVersion, and
      changes nothing but the line and newAppVersion.
     */
    method CommandRounds() returns (start: bool)
      requires Valid()
      modifies newAppVersion, this`line
      ensures var c := CommandLoop(old(line), old(line).clock + BOOT_TIMEOUT, old(propertyVault[..]),
                                   old(currentAppVersion[..]), old(newAppVersion[..]), txOutcome);
        && line == c.line && newAppVersion[..] == c.newVersion && start == c.dfu
      ensures propertyVault[..] == old(propertyVault[..]) && currentAppVersion[..] == old(currentAppVersion[..])
      ensures newApp[..] == old(newApp[..])
    {
      var timeout: nat := line.clock + BOOT_TIMEOUT;
      start := false;
      ghost var v0, cur := propertyVault[..], currentAppVersion[..];
      ghost var c0 := CommandLoop(line, timeout, v0, cur, newAppVersion[..], txOutcome);
      while line.clock < timeout && !start
        invariant propertyVault[..] == v0 && currentAppVersion[..] == cur && newApp[..] == old(newApp[..])
        invariant !start ==> CommandLoop(line, timeout, v0, cur, newAppVersion[..], txOutcome) == c0
        invariant start ==> c0 == CmdEnd(line, timeout, newAppVersion[..], true)
        decreases !start, |line.rx|, TicksLeft(line, timeout)
      {
        CommandLoopStep(line, timeout, v0, cur, newAppVersion[..], txOutcome, c0);
        timeout, start := CommandStep(timeout);
      }
    }

    // ------------------------------------------------------------------
    // STM32_Bootloader_Init

    /**
      Load the vault from flash double-word by double-word, then pick the
      slots by its slot byte; any other slot byte stores the default vault
      and flashes it. None when Init returns to its caller; Some(exit) when
      that Flash call failed and Init jumps to slot A instead. What it
      leaves is the Start that Boot gives for the 24 bytes at the vault
      address.
     */
    method Init() returns (exit: Option<Exit>)
      requires Valid()
      modifies propertyVault, currentAppVersion, this`currentAppBaseAddr, this`newAppBaseAddr, this`flash, this`halLog
      ensures var s := Boot(ReadBytes(old(flash), VaultAddress(base), VAULT_SIZE), base, pageSize, halOutcome,
                            |old(halLog)|, retries);
        && propertyVault[..] == s.vault && halLog == old(halLog) + s.halCalls
        && flash == ApplyLog(base, pageSize, old(flash), s.halCalls)
        && (s.slots.None? ==> exit == Some(Jump(AddressA(base))))
        && (s.slots.Some? ==> && exit.None?
                              && currentAppBaseAddr == s.slots.value.current
                              && newAppBaseAddr == s.slots.value.candidate
                              && currentAppVersion[..] == s.slots.value.version)
    {
      exit := None;
      LoadVault();
      ghost var loaded := propertyVault[..];
      ghost var s := Boot(loaded, base, pageSize, halOutcome, |halLog|, retries);
      if propertyVault[0] == APP_A || propertyVault[0] == APP_B {
        BootKeeps(loaded, base, pageSize, halOutcome, |halLog|, retries);
        var row := RowStart(propertyVault[0] as nat);
        if propertyVault[0] == APP_A {
          currentAppBaseAddr, newAppBaseAddr := AddressA(base), AddressB(base);
        } else {
          currentAppBaseAddr, newAppBaseAddr := AddressB(base), AddressA(base);
        }
        Copy(currentAppVersion, 0, propertyVault[row..row + VERSION_SIZE]);
        assert currentAppVersion[..] == s.slots.value.version;
        assert halLog == old(halLog) + s.halCalls;
      } else {
        BootFirst(loaded, base, pageSize, halOutcome, |halLog|, retries);
        var ok := FirstBoot();
        if !ok {
          return Some(Jump(AddressA(base)));
        }
        currentAppBaseAddr, newAppBaseAddr := AddressA(base), AddressB(base);
        Copy(currentAppVersion, 0, propertyVault[RowStart(1)..RowStart(1) + VERSION_SIZE]);
        assert currentAppVersion[..] == s.slots.value.version;
      }
    }

    /** memset(propertyVault, 0xFF, ...) and then memcpy of each double-word from the vault address */
    method LoadVault()
      requires Valid()
      modifies propertyVault
      ensures propertyVault[..] == ReadBytes(flash, VaultAddress(base), VAULT_SIZE)
    {
      ghost var loaded := ReadBytes(flash, VaultAddress(base), VAULT_SIZE);
      for j := 0 to VAULT_SIZE
        invariant forall k :: 0 <= k < j ==> propertyVault[k] == 0xFF
      {
        propertyVault[j] := 0xFF;
      }
      var i: nat := 0;
      while i < VAULT_SIZE
        invariant i % VAULT_WIDTH == 0 && i <= VAULT_SIZE
        invariant propertyVault[..i] == loaded[..i]
        decreases VAULT_SIZE - i
      {
        AlignedFits(i, VAULT_SIZE);
        var word := ReadBytes(flash, VaultAddress(base) + i, VAULT_WIDTH);
        assert word == loaded[i..i + VAULT_WIDTH];
        Copy(propertyVault, i, word);
        assert propertyVault[..i + VAULT_WIDTH] == loaded[..i] + loaded[i..i + VAULT_WIDTH];
        AlignedNext(i);
        i := i + VAULT_WIDTH;
      }
      assert propertyVault[..] == propertyVault[..i];
    }

    /** A first boot: the words APP_A, 0x000001 and 0 stored into the three rows, and the vault flashed */
    method FirstBoot() returns (ok: bool)
      requires Valid()
      modifies propertyVault, this`flash, this`halLog
      ensures propertyVault[..] == DefaultVault()
      ensures halLog == old(halLog) + VaultCalls(base, pageSize, halOutcome, |old(halLog)|, retries, DefaultVault())
      ensures flash == ApplyLog(base, pageSize, old(flash), VaultCalls(base, pageSize, halOutcome, |old(halLog)|, retries, DefaultVault()))
      ensures ok == FlashOk(base, pageSize, halOutcome, |old(halLog)|, retries, DefaultVault(), VaultAddress(base), VAULT_SIZE)
    {
      ghost var v0 := propertyVault[..];
      StoreWord(0, APP_A as nat);
      ghost var v1 := propertyVault[..];
      StoreWord(1, 0x000001);
      ghost var v2 := propertyVault[..];
      StoreWord(2, 0);
      StoreDefault(v0, v1, v2, propertyVault[..]);
      ok := Flash(propertyVault, VaultAddress(base), VAULT_SIZE);
    }
  }

  /** The three word stores of a first boot leave the default vault, whatever the vault held */
  lemma StoreDefault(v0: seq<byte>, v1: seq<byte>, v2: seq<byte>, v3: seq<byte>)
    requires |v0| == VAULT_SIZE
    requires v1 == v0[..RowStart(0)] + LeBytes(APP_A as nat, VAULT_WIDTH) + v0[RowStart(0) + VAULT_WIDTH..]
    requires v2 == v1[..RowStart(1)] + LeBytes(0x000001, VAULT_WIDTH) + v1[RowStart(1) + VAULT_WIDTH..]
    requires v3 == v2[..RowStart(2)] + LeBytes(0, VAULT_WIDTH) + v2[RowStart(2) + VAULT_WIDTH..]
    ensures v3 == DefaultVault()
  {
    var w0, w1, w2 := LeBytes(APP_A as nat, VAULT_WIDTH), LeBytes(0x000001, VAULT_WIDTH), LeBytes(0, VAULT_WIDTH);
    assert |v1| == VAULT_SIZE && v1[..8] == w0;
    assert |v2| == VAULT_SIZE && v2[..8] == w0 && v2[8..16] == w1;
    assert v3[..8] == w0 && v3[8..16] == w1 && v3[16..] == w2;
    assert v3 == v3[..8] + v3[8..16] + v3[16..];
  }

  /** Storing a word into row 0 and then copying a version into row r, for r = 1 or 2 */
  lemma StoreThenCopy(v0: seq<byte>, word: seq<byte>, v1: seq<byte>, version: seq<byte>, r: nat, v2: seq<byte>)
    requires |v0| == VAULT_SIZE && |word| == VAULT_WIDTH && |version| == VERSION_SIZE
    requires r == RowStart(1) || r == RowStart(2)
    requires v1 == v0[..0] + word + v0[VAULT_WIDTH..]
    requires v2 == v1[..r] + version + v1[r + VERSION_SIZE..]
    ensures r == RowStart(1) ==> v2 == word + version + v0[RowStart(1) + VERSION_SIZE..]
    ensures r == RowStart(2) ==> v2 == word + v0[RowStart(1)..RowStart(2)] + version + v0[RowStart(2) + VERSION_SIZE..]
  {
    assert v1[..VAULT_WIDTH] == word;
    assert v1[r + VERSION_SIZE..] == v0[r + VERSION_SIZE..];
    assert v1[..r] == word + v0[VAULT_WIDTH..r];
  }

  /** Adding to a sum kept modulo 2^16 */
  lemma SumMod(s: nat, b: nat)
    ensures (s % 0x10000 + b) % 0x10000 == (s + b) % 0x10000
  {
    var q, r := s / 0x10000, s % 0x10000;
    assert s == 0x10000 * q + r;
    assert s + b == 0x10000 * q + (r + b);
  }

  /** The low byte of a uint16_t sum is the low byte of the sum; negating it in uint8_t is the Intel HEX checksum */
  lemma LowByte(s: nat)
    ensures (s % 0x10000) % 256 == s % 256
    ensures ((0xFF - (s % 0x10000) % 256) + 1) % 256 == (256 - s % 256) % 256
  {
    var q, r := s / 0x10000, s % 0x10000;
    var a, c := r / 256, r % 256;
    assert s == 0x10000 * q + r;
    assert r == 256 * a + c;
    assert (256 * (256 * q + a) + c) % 256 == c;
    assert s == 256 * (256 * q + a) + c;
  }
}
