/**
  The property vault: three rows of eight bytes kept in flash at
  FLASH_BASE + 0x10000. Row 0 holds the active slot (1 = A, 2 = B) as a
  little-endian 64-bit word; rows 1 and 2 hold, in their first three bytes,
  the version of the application in slot A and in slot B.
 */
module Vault {
  import opened Bytes

  /** The first byte of row r */
  function RowStart(r: nat): nat {
    VAULT_WIDTH * r
  }

  /** Where the vault and the two application slots live, given FLASH_BASE */
  function VaultAddress(base: int): int { base + VAULT_OFFSET }
  function AddressA(base: int): int { base + APP_OFFSET_A }
  function AddressB(base: int): int { base + APP_OFFSET_B }

  // ------------------------------------------------------------------
  // Little-endian words

  function Pow256(n: nat): (p: nat)
    ensures p >= 1
  {
    if n == 0 then 1 else 256 * Pow256(n - 1)
  }

  /** The n bytes a little-endian store of v writes, lowest byte first */
  function LeBytes(v: nat, n: nat): (s: seq<byte>)
    ensures |s| == n
  {
    if n == 0 then [] else [(v % 256) as byte] + LeBytes(v / 256, n - 1)
  }

  /** The value a little-endian load of s reads */
  function LeValue(s: seq<byte>): (v: nat)
    ensures v < Pow256(|s|)
  {
    if s == [] then 0 else s[0] as nat + 256 * LeValue(s[1..])
  }

  /** Storing a value that fits and loading it back gives the value */
  lemma {:induction false} LeValueOfBytes(v: nat, n: nat)
    requires v < Pow256(n)
    ensures LeValue(LeBytes(v, n)) == v
  {
    if n > 0 {
      LeValueOfBytes(v / 256, n - 1);
      assert LeBytes(v, n)[1..] == LeBytes(v / 256, n - 1);
    }
  }

  /** Loading bytes and storing the value back gives the same bytes */
  lemma {:induction false} LeBytesOfValue(s: seq<byte>)
    ensures LeBytes(LeValue(s), |s|) == s
  {
    if s != [] {
      LeBytesOfValue(s[1..]);
      var v := LeValue(s);
      assert v % 256 == s[0] as nat;
      assert v / 256 == LeValue(s[1..]);
    }
  }

  // ------------------------------------------------------------------
  // The default vault

  /**
    The vault Init writes when the slot byte is neither 1 nor 2: the words
    APP_A, 0x000001 and 0 stored as little-endian 64-bit values.
   */
  function DefaultVault(): (v: seq<byte>)
    ensures |v| == VAULT_SIZE
  {
    LeBytes(APP_A as nat, VAULT_WIDTH) + LeBytes(0x000001, VAULT_WIDTH) + LeBytes(0, VAULT_WIDTH)
  }

  /**
    Byte by byte: the version bytes of slot A come out as 01 00 00 (not
    00 00 01) and bytes 3..7 of each row are 0.
   */
  lemma DefaultVaultBytes()
    ensures DefaultVault() == [1, 0, 0, 0, 0, 0, 0, 0,  1, 0, 0, 0, 0, 0, 0, 0,  0, 0, 0, 0, 0, 0, 0, 0]
    ensures DefaultVault()[RowStart(1)..RowStart(1) + VERSION_SIZE] == [1, 0, 0]
  {
    assert LeBytes(1, 8) == [1, 0, 0, 0, 0, 0, 0, 0];
    assert LeBytes(0, 8) == [0, 0, 0, 0, 0, 0, 0, 0];
  }

  /** Each row of the default vault loads back as the word Init stored */
  lemma DefaultVaultWords()
    ensures LeValue(DefaultVault()[RowStart(0)..RowStart(1)]) == APP_A as nat
    ensures LeValue(DefaultVault()[RowStart(1)..RowStart(2)]) == 0x000001
    ensures LeValue(DefaultVault()[RowStart(2)..RowStart(3)]) == 0
  {
    var v := DefaultVault();
    assert v[0..8] == LeBytes(APP_A as nat, 8);
    assert v[8..16] == LeBytes(1, 8);
    assert v[16..24] == LeBytes(0, 8);
    LeValueOfBytes(APP_A as nat, 8);
    LeValueOfBytes(1, 8);
    LeValueOfBytes(0, 8);
  }

  // ------------------------------------------------------------------
  // Resolving the slots

  /** The slots Init settles on: run one, update the other */
  datatype Slots = Slots(current: int, candidate: int, version: seq<byte>)

  /** The version row of the slot whose slot byte is s */
  function VersionOf(vault: seq<byte>, s: byte): (v: seq<byte>)
    requires |vault| == VAULT_SIZE && (s == APP_A || s == APP_B)
    ensures |v| == VERSION_SIZE
  {
    var r := RowStart(s as nat);
    vault[r..r + VERSION_SIZE]
  }

  /**
    The slots selected by the vault's slot byte: 1 runs A and updates B
    with A's version as current, 2 the other way round; any other byte
    selects nothing (Init then writes the default vault).
   */
  function Resolve(vault: seq<byte>, base: int): (r: Option<Slots>)
    requires |vault| == VAULT_SIZE
    ensures r.Some? <==> vault[0] == APP_A || vault[0] == APP_B
  {
    if vault[0] == APP_A then Some(Slots(AddressA(base), AddressB(base), VersionOf(vault, APP_A)))
    else if vault[0] == APP_B then Some(Slots(AddressB(base), AddressA(base), VersionOf(vault, APP_B)))
    else None
  }

  /** The slot byte that names the slot at `address`, if any */
  function SlotByte(address: int, base: int): Option<byte> {
    if address == AddressA(base) then Some(APP_A)
    else if address == AddressB(base) then Some(APP_B)
    else None
  }

  /**
    A resolved vault runs one slot and updates the other: {current,
    candidate} = {A, B}, they differ, the slot byte names the current slot
    and the version is that slot's version row.
   */
  lemma ResolveSlots(vault: seq<byte>, base: int)
    requires |vault| == VAULT_SIZE && Resolve(vault, base).Some?
    ensures var s := Resolve(vault, base).value;
      && {s.current, s.candidate} == {AddressA(base), AddressB(base)}
      && s.current != s.candidate
      && SlotByte(s.current, base) == Some(vault[0])
      && s.version == vault[RowStart(vault[0] as nat)..RowStart(vault[0] as nat) + VERSION_SIZE]
  {
  }

  /** The default vault runs A, updates B, and A's version is 01 00 00 */
  lemma ResolveDefault(base: int)
    ensures Resolve(DefaultVault(), base) == Some(Slots(AddressA(base), AddressB(base), [1, 0, 0]))
  {
    DefaultVaultBytes();
  }

  // ------------------------------------------------------------------
  // Committing an update

  /**
    The vault DFU writes after the image at `target` is programmed: row 0
    becomes the slot byte of `target` stored as a 64-bit word, and that
    slot's version row starts with `version`. A target that is neither slot
    gives None.
   */
  function Committed(vault: seq<byte>, target: int, base: int, version: seq<byte>): (r: Option<seq<byte>>)
    requires |vault| == VAULT_SIZE && |version| == VERSION_SIZE
    ensures r.Some? <==> SlotByte(target, base).Some?
    ensures r.Some? ==> |r.value| == VAULT_SIZE
  {
    if target == AddressA(base) then
      Some(LeBytes(APP_A as nat, VAULT_WIDTH) + version + vault[RowStart(1) + VERSION_SIZE..])
    else if target == AddressB(base) then
      Some(LeBytes(APP_B as nat, VAULT_WIDTH) + vault[RowStart(1)..RowStart(2)] + version
           + vault[RowStart(2) + VERSION_SIZE..])
    else None
  }

  /**
    What a commit changes: row 0 names the target slot, that slot's version
    bytes are the new version, and every other byte is kept.
   */
  lemma CommittedBytes(vault: seq<byte>, target: int, base: int, version: seq<byte>)
    requires |vault| == VAULT_SIZE && |version| == VERSION_SIZE && SlotByte(target, base).Some?
    ensures var s := SlotByte(target, base).value;
      var w := Committed(vault, target, base, version).value;
      && w[..RowStart(1)] == LeBytes(s as nat, VAULT_WIDTH)
      && w[RowStart(s as nat)..RowStart(s as nat) + VERSION_SIZE] == version
      && (forall k :: RowStart(1) <= k < VAULT_SIZE && !(RowStart(s as nat) <= k < RowStart(s as nat) + VERSION_SIZE)
            ==> w[k] == vault[k])
  {
  }

  /**
    The slot-swap invariant: committing an update of the candidate slot
    yields a vault that resolves to the swapped slots, with the new version
    as current, and keeps the version row of the slot that was running.
   */
  lemma CommitSwapsSlots(vault: seq<byte>, base: int, version: seq<byte>)
    requires |vault| == VAULT_SIZE && |version| == VERSION_SIZE && Resolve(vault, base).Some?
    ensures var s := Resolve(vault, base).value;
      && Committed(vault, s.candidate, base, version).Some?
      && var w := Committed(vault, s.candidate, base, version).value;
      && Resolve(w, base) == Some(Slots(s.candidate, s.current, version))
      && VersionOf(w, vault[0]) == VersionOf(vault, vault[0])
  {
    var s := Resolve(vault, base).value;
    var w := Committed(vault, s.candidate, base, version).value;
    CommittedBytes(vault, s.candidate, base, version);
    assert w[0] as nat == LeBytes(SlotByte(s.candidate, base).value as nat, VAULT_WIDTH)[0] as nat;
  }

  /** Committing twice in a row to the two slots in turn brings the first slot back */
  lemma CommitTwiceRestores(vault: seq<byte>, base: int, v1: seq<byte>, v2: seq<byte>)
    requires |vault| == VAULT_SIZE && |v1| == VERSION_SIZE && |v2| == VERSION_SIZE && Resolve(vault, base).Some?
    ensures var s := Resolve(vault, base).value;
      var w := Committed(vault, s.candidate, base, v1).value;
      && Resolve(w, base).Some?
      && var w2 := Committed(w, Resolve(w, base).value.candidate, base, v2).value;
      && Resolve(w2, base) == Some(Slots(s.current, s.candidate, v2))
      && VersionOf(w2, w2[0]) == v2
  {
    var s := Resolve(vault, base).value;
    CommitSwapsSlots(vault, base, v1);
    var w := Committed(vault, s.candidate, base, v1).value;
    CommitSwapsSlots(w, base, v2);
  }
}
