/**
  STM32_Bootloader_Process as a function of what the host sends: the boot
  command loop that answers ALL with the status reply, accepts DFU with a
  newer version, and then ends in an update, a jump to the running slot, or
  a reset into the new image.
 */
module Commands {
  import opened Bytes
  import opened Uart
  import opened Session
  import opened Vault
  import opened FlashLog
  import opened Dfu

  // ------------------------------------------------------------------
  // One pass of the command loop

  /**
    A pass of the loop: the line, the deadline and newAppVersion after it,
    and whether it ends with a DFU to start.
   */
  datatype CmdPass = CmdPass(line: Line, timeout: nat, newVersion: seq<byte>, start: bool)

  /**
    The pass the loop makes from line l with deadline `timeout`, the vault,
    the current version and newAppVersion. A received command moves the
    deadline; ALL is answered with the status reply whatever its transmit
    gives; DFU is confirmed, its version token read and parsed into
    newAppVersion, and the version refused with "NO" or confirmed with "OK".
   */
  function CommandPass(l: Line, timeout: nat, vault: seq<byte>, current: seq<byte>, newVersion: seq<byte>,
                       txOutcome: nat -> bool): (r: CmdPass)
    requires |vault| == VAULT_SIZE && |current| == VERSION_SIZE && |newVersion| == VERSION_SIZE
    ensures |r.newVersion| == VERSION_SIZE
    // every pass uses up an answer of the host, or waits UART_TIMEOUT on a silent line
    ensures |r.line.rx| < |l.rx|
            || (l.rx == [] && r == CmdPass(Line([], l.clock + UART_TIMEOUT, l.sent), timeout, newVersion, false))
  {
    var cmd := Receive(l, COMMAND_LENGTH);
    if !cmd.ok then CmdPass(cmd.line, timeout, newVersion, false)
    else
      var l1 := cmd.line;
      var t := l1.clock + BOOT_TIMEOUT;
      if IsCommand(cmd.data, ALL) then CmdPass(Transmit(l1, StatusReply(vault), txOutcome).line, t, newVersion, false)
      else if !IsCommand(cmd.data, DFU) then CmdPass(l1, t, newVersion, false)
      else VersionExchange(l1, t, current, newVersion, txOutcome)
  }

  /**
    The rest of a pass once DFU arrived, from line l with the new deadline
    t: the command confirmed with "OK", the version token received and
    parsed into newAppVersion, and the version refused with "NO" or
    confirmed with "OK".
   */
  function VersionExchange(l: Line, t: nat, current: seq<byte>, newVersion: seq<byte>, txOutcome: nat -> bool): (r: CmdPass)
    requires |current| == VERSION_SIZE && |newVersion| == VERSION_SIZE
    ensures |r.newVersion| == VERSION_SIZE && r.timeout == t
    ensures |r.line.rx| <= |l.rx| && r.line.clock >= l.clock
  {
    var confirm := Transmit(l, OK, txOutcome);
    if !confirm.ok then CmdPass(confirm.line, t, newVersion, false)
    else
      var token := Receive(confirm.line, VERSION_TOKEN_LENGTH);
      if !token.ok then CmdPass(token.line, t, newVersion, false)
      else
        var v := ParseVersion(token.data);
        if !VersionAccepted(v, current) then CmdPass(Transmit(token.line, NO, txOutcome).line, t, v, false)
        else
          var accept := Transmit(token.line, OK, txOutcome);
          CmdPass(accept.line, t, v, accept.ok)
  }

  /**
    How a pass treats a failed receive and the commands: a failed 3-byte receive
    changes nothing but the line and sends nothing; any received command moves
    the deadline to the tick after it plus BOOT_TIMEOUT; ALL sends exactly the
    status reply and starts nothing; a command that is neither ALL nor DFU sends
    nothing and starts nothing.
   */
  lemma CommandDispatch(l: Line, timeout: nat, vault: seq<byte>, current: seq<byte>, newVersion: seq<byte>,
                        txOutcome: nat -> bool)
    requires |vault| == VAULT_SIZE && |current| == VERSION_SIZE && |newVersion| == VERSION_SIZE
    ensures var cmd := Receive(l, COMMAND_LENGTH);
      var r := CommandPass(l, timeout, vault, current, newVersion, txOutcome);
      && (!cmd.ok ==> r == CmdPass(cmd.line, timeout, newVersion, false) && r.line.sent == l.sent)
      && (cmd.ok ==> r.timeout == cmd.line.clock + BOOT_TIMEOUT)
      && (cmd.ok && cmd.data == ALL ==>
            !r.start && r.newVersion == newVersion && r.line.sent == l.sent + [StatusReply(vault)])
      && (cmd.ok && cmd.data != ALL && cmd.data != DFU ==>
            r == CmdPass(cmd.line, cmd.line.clock + BOOT_TIMEOUT, newVersion, false) && r.line.sent == l.sent)
  {
    var cmd := Receive(l, COMMAND_LENGTH);
    if cmd.ok {
      IsCommandExact(cmd.data);
    }
  }

  /**
    How a pass treats DFU: it starts an update exactly when the "OK" that
    confirms the command goes out, the 10-byte version token arrives, its
    parsed version passes the gate against the current one and the "OK"
    that confirms the version goes out; newAppVersion is then the parsed
    version.
   */
  lemma CommandDfu(l: Line, timeout: nat, vault: seq<byte>, current: seq<byte>, newVersion: seq<byte>,
                   txOutcome: nat -> bool)
    requires |vault| == VAULT_SIZE && |current| == VERSION_SIZE && |newVersion| == VERSION_SIZE
    requires Receive(l, COMMAND_LENGTH).ok && Receive(l, COMMAND_LENGTH).data == DFU
    ensures var l1 := Receive(l, COMMAND_LENGTH).line;
      var token := Receive(Transmit(l1, OK, txOutcome).line, VERSION_TOKEN_LENGTH);
      var r := CommandPass(l, timeout, vault, current, newVersion, txOutcome);
      && (r.start <==>
            && txOutcome(|l.sent|) && token.ok && VersionAccepted(ParseVersion(token.data), current)
            && txOutcome(|l.sent| + 1))
      && (r.start ==> r.newVersion == ParseVersion(token.data) && r.line.sent == l.sent + [OK, OK])
  {
    IsCommandExact(DFU);
  }

  /** A DFU whose version token arrives but fails the gate is answered with "NO"; newAppVersion still takes the parsed version */
  lemma CommandDfuRefused(l: Line, timeout: nat, vault: seq<byte>, current: seq<byte>, newVersion: seq<byte>,
                          txOutcome: nat -> bool)
    requires |vault| == VAULT_SIZE && |current| == VERSION_SIZE && |newVersion| == VERSION_SIZE
    requires Receive(l, COMMAND_LENGTH).ok && Receive(l, COMMAND_LENGTH).data == DFU
    ensures var l1 := Receive(l, COMMAND_LENGTH).line;
      var token := Receive(Transmit(l1, OK, txOutcome).line, VERSION_TOKEN_LENGTH);
      var r := CommandPass(l, timeout, vault, current, newVersion, txOutcome);
      txOutcome(|l.sent|) && token.ok && !VersionAccepted(ParseVersion(token.data), current) ==>
        !r.start && r.newVersion == ParseVersion(token.data) && r.line.sent == l.sent + [OK, NO]
  {
    IsCommandExact(DFU);
  }

  // ------------------------------------------------------------------
  // The command loop

  /** Where the command loop ends: the line, the deadline, newAppVersion, and whether a DFU starts */
  datatype CmdEnd = CmdEnd(line: Line, timeout: nat, newVersion: seq<byte>, dfu: bool)

  /** The loop while (HAL_GetTick() < timeout), up to the pass that starts a DFU */
  function CommandLoop(l: Line, timeout: nat, vault: seq<byte>, current: seq<byte>, newVersion: seq<byte>,
                    txOutcome: nat -> bool): (r: CmdEnd)
    requires |vault| == VAULT_SIZE && |current| == VERSION_SIZE && |newVersion| == VERSION_SIZE
    ensures |r.newVersion| == VERSION_SIZE
    decreases |l.rx|, TicksLeft(l, timeout)
  {
    if l.clock >= timeout then CmdEnd(l, timeout, newVersion, false)
    else
      var p := CommandPass(l, timeout, vault, current, newVersion, txOutcome);
      if p.start then CmdEnd(p.line, p.timeout, p.newVersion, true)
      else CommandLoop(p.line, p.timeout, vault, current, p.newVersion, txOutcome)
  }

  /** One pass of the loop before the deadline: it ends the loop with a DFU, or the loop goes on from where it leaves */
  lemma CommandLoopStep(l: Line, timeout: nat, vault: seq<byte>, current: seq<byte>, newVersion: seq<byte>,
                        txOutcome: nat -> bool, c: CmdEnd)
    requires |vault| == VAULT_SIZE && |current| == VERSION_SIZE && |newVersion| == VERSION_SIZE
    requires l.clock < timeout && c == CommandLoop(l, timeout, vault, current, newVersion, txOutcome)
    ensures var p := CommandPass(l, timeout, vault, current, newVersion, txOutcome);
      && (p.start ==> c == CmdEnd(p.line, p.timeout, p.newVersion, true))
      && (!p.start ==> CommandLoop(p.line, p.timeout, vault, current, p.newVersion, txOutcome) == c)
  {
  }

  /**
    The gate holds over the whole loop: it ends either at the deadline with
    no update, or with a DFU whose version passed the gate against the
    current version; time does not go back.
   */
  lemma {:induction false} CommandLoopGate(l: Line, timeout: nat, vault: seq<byte>, current: seq<byte>, newVersion: seq<byte>,
                                        txOutcome: nat -> bool)
    requires |vault| == VAULT_SIZE && |current| == VERSION_SIZE && |newVersion| == VERSION_SIZE
    ensures var r := CommandLoop(l, timeout, vault, current, newVersion, txOutcome);
      && r.line.clock >= l.clock
      && (r.dfu ==> VersionAccepted(r.newVersion, current))
      && (!r.dfu ==> r.line.clock >= r.timeout)
    decreases |l.rx|, TicksLeft(l, timeout)
  {
    if l.clock < timeout {
      var p := CommandPass(l, timeout, vault, current, newVersion, txOutcome);
      CommandPassGate(l, timeout, vault, current, newVersion, txOutcome);
      if !p.start {
        CommandLoopGate(p.line, p.timeout, vault, current, p.newVersion, txOutcome);
      }
    }
  }

  /** One pass: time does not go back, and a pass that starts a DFU accepted its version */
  lemma CommandPassGate(l: Line, timeout: nat, vault: seq<byte>, current: seq<byte>, newVersion: seq<byte>,
                        txOutcome: nat -> bool)
    requires |vault| == VAULT_SIZE && |current| == VERSION_SIZE && |newVersion| == VERSION_SIZE
    ensures var r := CommandPass(l, timeout, vault, current, newVersion, txOutcome);
      r.line.clock >= l.clock && (r.start ==> VersionAccepted(r.newVersion, current))
  {
  }

  // ------------------------------------------------------------------
  // The whole boot process

  /** How the bootloader leaves: jumping to a slot, resetting into the new image, or a fault where the C code leaves its buffers or its Flash index wraps */
  datatype Exit = Jump(address: int) | Reset | Fault

  /** What STM32_Bootloader_Process leaves: the exit, the line, newApp, the HAL calls, the vault and newAppVersion */
  datatype Run = Run(exit: Exit, line: Line, image: Image, halCalls: seq<HalCall>, vault: seq<byte>, newVersion: seq<byte>)

  /** The exit after STM32_Bootloader_DFU ended with `outcome`: a reset once installed, a fault where C is undefined */
  function ExitOf(outcome: Outcome, current: int): Exit {
    if outcome == Installed then Reset
    else if outcome == IndexWraps || outcome == LoopFailed(Overrun) then Fault
    else Jump(current)
  }

  /**
    What STM32_Bootloader_Process does after its command loop c, which
    starts from the tick at entry plus BOOT_TIMEOUT: the jump to the running
    slot once the deadline passed, or else STM32_Bootloader_DFU with the
    vault, the target slot, newAppVersion, the pending image and the stale
    contents of DFU's frame buffer, from HAL call k on. A failed DFU also
    jumps to the running slot (the loop's break); an installed one resets.
   */
  function Conclude(c: CmdEnd, vault: seq<byte>, current: int, target: int, stale: seq<byte>, im: Image, base: int,
                    pageSize: nat, outcome: nat -> bool, k: nat, tries: nat, txOutcome: nat -> bool): (r: Run)
    requires |vault| == VAULT_SIZE && |c.newVersion| == VERSION_SIZE
    requires |stale| == FRAME_SIZE && |im.bytes| == APP_SIZE && pageSize > 0
    ensures |r.vault| == VAULT_SIZE && |r.newVersion| == VERSION_SIZE && |r.image.bytes| == APP_SIZE
  {
    if !c.dfu then Run(Jump(current), c.line, im, [], vault, c.newVersion)
    else
      var u := RunUpdate(c.line, stale, im, vault, c.newVersion, target, base, pageSize, outcome, k, tries, txOutcome);
      Run(ExitOf(u.outcome, current), u.line, u.image, u.imageLog + u.vaultLog, u.vault, c.newVersion)
  }

  /** After a loop that starts a DFU, the run is the update's, with the exit its outcome leads to */
  lemma ConcludeUpdates(c: CmdEnd, vault: seq<byte>, current: int, target: int, stale: seq<byte>, im: Image, base: int,
                        pageSize: nat, outcome: nat -> bool, k: nat, tries: nat, txOutcome: nat -> bool, u: Update)
    requires |vault| == VAULT_SIZE && |c.newVersion| == VERSION_SIZE
    requires |stale| == FRAME_SIZE && |im.bytes| == APP_SIZE && pageSize > 0 && c.dfu
    requires u == RunUpdate(c.line, stale, im, vault, c.newVersion, target, base, pageSize, outcome, k, tries, txOutcome)
    ensures Conclude(c, vault, current, target, stale, im, base, pageSize, outcome, k, tries, txOutcome)
            == Run(ExitOf(u.outcome, current), u.line, u.image, u.imageLog + u.vaultLog, u.vault, c.newVersion)
  {
  }

  /**
    Every way out of the boot process is a jump to the running slot, a
    reset, or a fault where the C code would leave its buffers or its
    image offset would wrap the uint16_t index of Flash. A loop that starts
    no DFU jumps to the running slot having flashed nothing and kept the
    vault. After a DFU: a reset exactly when it was installed, a fault
    exactly on Overrun or IndexWraps, and every other failure (time-out,
    bad checksum, failed acknowledgement, image or vault not written,
    unknown slot) breaks the loop and jumps to the running slot.
   */
  lemma ConcludeExits(c: CmdEnd, vault: seq<byte>, current: int, target: int, stale: seq<byte>, im: Image, base: int,
                      pageSize: nat, outcome: nat -> bool, k: nat, tries: nat, txOutcome: nat -> bool)
    requires |vault| == VAULT_SIZE && |c.newVersion| == VERSION_SIZE
    requires |stale| == FRAME_SIZE && |im.bytes| == APP_SIZE && pageSize > 0
    ensures var r := Conclude(c, vault, current, target, stale, im, base, pageSize, outcome, k, tries, txOutcome);
      var u := RunUpdate(c.line, stale, im, vault, c.newVersion, target, base, pageSize, outcome, k, tries, txOutcome);
      var faulted := u.outcome == IndexWraps || u.outcome == LoopFailed(Overrun);
      && (r.exit == Jump(current) || r.exit == Reset || r.exit == Fault)
      && (!c.dfu ==> r.exit == Jump(current) && r.halCalls == [] && r.vault == vault)
      && (r.exit == Reset <==> c.dfu && u.outcome == Installed)
      && (r.exit == Fault <==> c.dfu && faulted)
      && (c.dfu && u.outcome != Installed && !faulted ==> r.exit == Jump(current))
  {
  }

  /**
    A reset comes only after a DFU that was installed: the image and then
    the vault flashed (the update's outcome is Installed) and the vault
    committed to the target with the new version.
   */
  lemma ConcludeResets(c: CmdEnd, vault: seq<byte>, current: int, target: int, stale: seq<byte>, im: Image, base: int,
                       pageSize: nat, outcome: nat -> bool, k: nat, tries: nat, txOutcome: nat -> bool)
    requires |vault| == VAULT_SIZE && |c.newVersion| == VERSION_SIZE
    requires |stale| == FRAME_SIZE && |im.bytes| == APP_SIZE && pageSize > 0
    requires Conclude(c, vault, current, target, stale, im, base, pageSize, outcome, k, tries, txOutcome).exit == Reset
    ensures var r := Conclude(c, vault, current, target, stale, im, base, pageSize, outcome, k, tries, txOutcome);
      && c.dfu && r.newVersion == c.newVersion
      && RunUpdate(c.line, stale, im, vault, c.newVersion, target, base, pageSize, outcome, k, tries, txOutcome).outcome
         == Installed
      && Committed(vault, target, base, c.newVersion) == Some(r.vault)
  {
  }

  /**
    The boot process resets only after an update whose version passed the
    gate against the current version was installed; it never resets
    without a DFU command.
   */
  lemma ProcessResets(l: Line, vault: seq<byte>, current: int, target: int, currentVersion: seq<byte>, newVersion: seq<byte>,
                      stale: seq<byte>, im: Image, base: int, pageSize: nat, outcome: nat -> bool, k: nat, tries: nat,
                      txOutcome: nat -> bool, c: CmdEnd)
    requires |vault| == VAULT_SIZE && |currentVersion| == VERSION_SIZE && |newVersion| == VERSION_SIZE
    requires |stale| == FRAME_SIZE && |im.bytes| == APP_SIZE && pageSize > 0
    requires c == CommandLoop(l, l.clock + BOOT_TIMEOUT, vault, currentVersion, newVersion, txOutcome)
    requires Conclude(c, vault, current, target, stale, im, base, pageSize, outcome, k, tries, txOutcome).exit == Reset
    ensures c.dfu && VersionAccepted(c.newVersion, currentVersion)
  {
    CommandLoopGate(l, l.clock + BOOT_TIMEOUT, vault, currentVersion, newVersion, txOutcome);
    ConcludeResets(c, vault, current, target, stale, im, base, pageSize, outcome, k, tries, txOutcome);
  }
}
