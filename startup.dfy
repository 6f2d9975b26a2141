/**
  STM32_Bootloader_Init as a function of the vault it loads from flash: the
  slot byte selects the running slot and its version, and a vault whose
  slot byte names no slot is replaced by the default vault, written to
  flash before the bootloader goes on.
 */
module Startup {
  import opened Bytes
  import opened FlashLog
  import opened Vault
  import opened Dfu

  /**
    What Init leaves: the vault in RAM, the HAL calls it made, and the slots
    it settled on; None when the default vault could not be written, after
    which it jumps to slot A and never returns.
   */
  datatype Start = Start(vault: seq<byte>, halCalls: seq<HalCall>, slots: Option<Slots>)

  /** Init, with `loaded` the 24 bytes at the vault address, flashing from HAL call k on */
  function Boot(loaded: seq<byte>, base: int, pageSize: nat, outcome: nat -> bool, k: nat, tries: nat): (s: Start)
    requires |loaded| == VAULT_SIZE && pageSize > 0
    ensures |s.vault| == VAULT_SIZE
  {
    if Resolve(loaded, base).Some? then Start(loaded, [], Resolve(loaded, base))
    else
      var w := DefaultVault();
      var calls := VaultCalls(base, pageSize, outcome, k, tries, w);
      if !FlashOk(base, pageSize, outcome, k, tries, w, VaultAddress(base), VAULT_SIZE) then Start(w, calls, None)
      else Start(w, calls, Some(Slots(AddressA(base), AddressB(base), w[RowStart(1)..RowStart(1) + VERSION_SIZE])))
  }

  /**
    Init settles only on slots its vault resolves to: one slot runs, the
    other is updated, and the current version is the running slot's row.
   */
  lemma BootResolves(loaded: seq<byte>, base: int, pageSize: nat, outcome: nat -> bool, k: nat, tries: nat)
    requires |loaded| == VAULT_SIZE && pageSize > 0
    ensures var s := Boot(loaded, base, pageSize, outcome, k, tries);
      s.slots.Some? ==>
        && Resolve(s.vault, base) == s.slots
        && {s.slots.value.current, s.slots.value.candidate} == {AddressA(base), AddressB(base)}
        && s.slots.value.current != s.slots.value.candidate
  {
    var s := Boot(loaded, base, pageSize, outcome, k, tries);
    if s.slots.Some? {
      if Resolve(loaded, base).None? {
        ResolveDefault(base);
        DefaultVaultBytes();
      }
      ResolveSlots(s.vault, base);
    }
  }

  /** A vault whose slot byte is 1 or 2 is used as loaded: nothing is flashed */
  lemma BootKeeps(loaded: seq<byte>, base: int, pageSize: nat, outcome: nat -> bool, k: nat, tries: nat)
    requires |loaded| == VAULT_SIZE && pageSize > 0 && (loaded[0] == APP_A || loaded[0] == APP_B)
    ensures Boot(loaded, base, pageSize, outcome, k, tries) == Start(loaded, [], Resolve(loaded, base))
  {
  }

  /**
    First boot: any other slot byte makes Init store the default vault and
    flash it in one 24-byte Flash call; it then runs slot A with version
    01 00 00 and updates slot B, or, when that call fails, jumps to slot A.
   */
  lemma BootFirst(loaded: seq<byte>, base: int, pageSize: nat, outcome: nat -> bool, k: nat, tries: nat)
    requires |loaded| == VAULT_SIZE && pageSize > 0 && loaded[0] != APP_A && loaded[0] != APP_B
    ensures var s := Boot(loaded, base, pageSize, outcome, k, tries);
      && s.vault == DefaultVault()
      && s.halCalls == VaultCalls(base, pageSize, outcome, k, tries, DefaultVault())
      && (s.slots.Some? <==> FlashOk(base, pageSize, outcome, k, tries, DefaultVault(), VaultAddress(base), VAULT_SIZE))
      && (s.slots.Some? ==> s.slots.value == Slots(AddressA(base), AddressB(base), [1, 0, 0]))
  {
    DefaultVaultBytes();
  }

  /**
    The vault Init settles on is the one in flash: loaded from the vault
    address, or written there by a successful Flash call.
   */
  lemma BootPersists(f: Flash, base: int, pageSize: nat, outcome: nat -> bool, k: nat, tries: nat)
    requires pageSize > 0
    ensures var s := Boot(ReadBytes(f, VaultAddress(base), VAULT_SIZE), base, pageSize, outcome, k, tries);
      s.slots.Some? ==> ReadBytes(ApplyLog(base, pageSize, f, s.halCalls), VaultAddress(base), VAULT_SIZE) == s.vault
  {
    var loaded := ReadBytes(f, VaultAddress(base), VAULT_SIZE);
    var s := Boot(loaded, base, pageSize, outcome, k, tries);
    if s.slots.Some? && Resolve(loaded, base).None? {
      VaultWritten(base, pageSize, f, s.halCalls, outcome, k, tries, DefaultVault());
    }
  }
}
