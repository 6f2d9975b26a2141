/**
  The text the boot command loop exchanges with the host: the 3-byte
  commands, the 27-byte status reply to ALL, the version token that follows
  DFU and the gate that accepts only a newer version.
 */
module Session {
  import opened Bytes
  import opened Vault

  // ------------------------------------------------------------------
  // Commands

  /** strncmp(cmd, command, COMMAND_LENGTH) == 0 */
  predicate IsCommand(cmd: seq<byte>, command: seq<byte>)
    requires |cmd| == COMMAND_LENGTH && |command| == COMMAND_LENGTH
  {
    Strncmp(cmd, command, COMMAND_LENGTH) == 0
  }

  /** ALL and DFU hold no NUL, so a command matches exactly when its three bytes are the command's */
  lemma IsCommandExact(cmd: seq<byte>)
    requires |cmd| == COMMAND_LENGTH
    ensures IsCommand(cmd, ALL) <==> cmd == ALL
    ensures IsCommand(cmd, DFU) <==> cmd == DFU
    ensures !(IsCommand(cmd, ALL) && IsCommand(cmd, DFU))
  {
    StrncmpNoNul(cmd, ALL, COMMAND_LENGTH);
    StrncmpNoNul(cmd, DFU, COMMAND_LENGTH);
    assert cmd[..COMMAND_LENGTH] == cmd;
    assert ALL[..COMMAND_LENGTH] == ALL;
    assert DFU[..COMMAND_LENGTH] == DFU;
  }

  // ------------------------------------------------------------------
  // The status reply

  /** sprintf("%02x.%02x.%02x\n", v[0], v[1], v[2]) */
  function VersionLine(v: seq<byte>): (s: seq<byte>)
    requires |v| == VERSION_SIZE
    ensures |s| == 9 && s[2] == DOT && s[5] == DOT && s[8] == LF
    ensures s[0..2] == Hex2(v[0]) && s[3..5] == Hex2(v[1]) && s[6..8] == Hex2(v[2])
  {
    Hex2(v[0]) + [DOT] + Hex2(v[1]) + [DOT] + Hex2(v[2]) + [LF]
  }

  /**
    The 27 bytes transmitted in reply to ALL: "%08x\n" of the slot byte, then
    the version lines of slot A (row 1) and slot B (row 2).
   */
  function StatusReply(vault: seq<byte>): (r: seq<byte>)
    requires |vault| == VAULT_SIZE
    ensures |r| == 27
    ensures r[..8] == Hex8(vault[0]) && r[8] == LF
    ensures r[9..18] == VersionLine(VersionOf(vault, APP_A))
    ensures r[18..] == VersionLine(VersionOf(vault, APP_B))
  {
    Hex8(vault[0]) + [LF] + VersionLine(VersionOf(vault, APP_A)) + VersionLine(VersionOf(vault, APP_B))
  }

  /** Leading '0' digits do not change a hex number */
  lemma {:induction false} HexNumberLeadingZero(s: seq<byte>, i: nat, j: nat)
    requires i < j <= |s| && s[i] == 48
    requires forall k :: i <= k < j ==> IsHexDigit(s[k])
    ensures HexNumber(s, i, j) == HexNumber(s, i + 1, j)
    decreases j - i
  {
    if j > i + 1 {
      HexNumberLeadingZero(s, i, j - 1);
    }
  }

  // ------------------------------------------------------------------
  // Reading versions: strtol(buffer + 3 * i, NULL, 16) for i = 0, 1, 2

  /** The three version bytes read at offsets 0, 3 and 6 of s, each narrowed to uint8_t */
  function HexTriple(s: seq<byte>): (v: seq<byte>)
    requires |s| >= 7
    ensures |v| == VERSION_SIZE
  {
    [ToByte(Strtol16(s)), ToByte(Strtol16(s[3..])), ToByte(Strtol16(s[6..]))]
  }

  /** Byte i of the triple is strtol at offset 3 * i: the loop that fills newAppVersion computes HexTriple */
  lemma HexTripleAt(s: seq<byte>, i: nat)
    requires |s| >= 7 && i < VERSION_SIZE
    ensures HexTriple(s)[i] == ToByte(Strtol16(s[3 * i..]))
  {
    if i == 0 {
      assert s[3 * i..] == s;
    }
  }

  /** Hex pairs at offsets 0, 3 and 6, each followed by a byte that is not a hex digit */
  predicate PairsAt(s: seq<byte>)
  {
    && |s| >= 9
    && IsHexDigit(s[0]) && IsHexDigit(s[1]) && !IsHexDigit(s[2])
    && IsHexDigit(s[3]) && IsHexDigit(s[4]) && !IsHexDigit(s[5])
    && IsHexDigit(s[6]) && IsHexDigit(s[7]) && !IsHexDigit(s[8])
  }

  /** The hex pair at offset i, as a number */
  function PairValue(s: seq<byte>, i: nat): nat
    requires i + 1 < |s| && IsHexDigit(s[i]) && IsHexDigit(s[i + 1])
  {
    16 * HexValue(s[i]) + HexValue(s[i + 1])
  }

  /** strtol at a hex pair that is followed by a non-digit, narrowed to uint8_t, is the pair's value */
  lemma PairReadsBack(t: seq<byte>)
    requires |t| >= 3 && IsHexDigit(t[0]) && IsHexDigit(t[1]) && !IsHexDigit(t[2])
    ensures ToByte(Strtol16(t)) as int == PairValue(t, 0)
  {
    assert t == [t[0], t[1]] + t[2..];
    HexPairValue(t[0], t[1], t[2..]);
  }

  /** Each version byte is the value of its hex pair */
  lemma HexTripleOfPairs(s: seq<byte>)
    requires PairsAt(s)
    ensures HexTriple(s)[0] as int == PairValue(s, 0)
    ensures HexTriple(s)[1] as int == PairValue(s, 3)
    ensures HexTriple(s)[2] as int == PairValue(s, 6)
  {
    PairReadsBack(s);
    PairReadsBack(s[3..]);
    PairReadsBack(s[6..]);
  }

  /** Three hex pairs with the values of v read back as v */
  lemma HexTripleIs(s: seq<byte>, v: seq<byte>)
    requires PairsAt(s) && |v| == VERSION_SIZE
    requires PairValue(s, 0) == v[0] as int && PairValue(s, 3) == v[1] as int && PairValue(s, 6) == v[2] as int
    ensures HexTriple(s) == v
  {
    HexTripleOfPairs(s);
  }

  /** The buffer after memset(buffer, 0, BUFFER_SIZE) and the receive of the 10-byte token */
  function VersionBuffer(token: seq<byte>): (b: seq<byte>)
    requires |token| == VERSION_TOKEN_LENGTH
    ensures |b| == BUFFER_SIZE && b[..VERSION_TOKEN_LENGTH] == token
    ensures forall k :: VERSION_TOKEN_LENGTH <= k < BUFFER_SIZE ==> b[k] == 0
  {
    token + seq(BUFFER_SIZE - VERSION_TOKEN_LENGTH, _ => 0)
  }

  /** newAppVersion as Process fills it from the received token */
  function ParseVersion(token: seq<byte>): (v: seq<byte>)
    requires |token| == VERSION_TOKEN_LENGTH
    ensures |v| == VERSION_SIZE
  {
    HexTriple(VersionBuffer(token))
  }

  /** "MM.mm.pp\r\n" */
  predicate WellFormedToken(t: seq<byte>)
  {
    && |t| == VERSION_TOKEN_LENGTH
    && IsHexDigit(t[0]) && IsHexDigit(t[1]) && t[2] == DOT
    && IsHexDigit(t[3]) && IsHexDigit(t[4]) && t[5] == DOT
    && IsHexDigit(t[6]) && IsHexDigit(t[7]) && t[8] == CR && t[9] == LF
  }

  /** A well-formed token yields the values of its three hex pairs */
  lemma ParseVersionWellFormed(t: seq<byte>)
    requires WellFormedToken(t)
    ensures ParseVersion(t)[0] as int == PairValue(t, 0)
    ensures ParseVersion(t)[1] as int == PairValue(t, 3)
    ensures ParseVersion(t)[2] as int == PairValue(t, 6)
  {
    var b := VersionBuffer(t);
    assert b[..10] == t;
    assert PairValue(b, 0) == PairValue(t, 0) && PairValue(b, 3) == PairValue(t, 3) && PairValue(b, 6) == PairValue(t, 6);
    HexTripleOfPairs(b);
  }

  /** A version line reads back as the version it prints */
  lemma VersionLineReadsBack(v: seq<byte>, rest: seq<byte>)
    requires |v| == VERSION_SIZE
    ensures HexTriple(VersionLine(v) + rest) == v
  {
    var s := VersionLine(v) + rest;
    assert s[..9] == VersionLine(v);
    assert PairValue(s, 0) == v[0] as int && PairValue(s, 3) == v[1] as int && PairValue(s, 6) == v[2] as int;
    HexTripleIs(s, v);
  }

  /** The token "MM.mm.pp\r\n" of a version */
  function VersionToken(v: seq<byte>): (t: seq<byte>)
    requires |v| == VERSION_SIZE
    ensures WellFormedToken(t)
  {
    VersionLine(v)[..8] + [CR, LF]
  }

  /** A version sent as its token is the version Process parses */
  lemma VersionTokenRoundTrip(v: seq<byte>)
    requires |v| == VERSION_SIZE
    ensures ParseVersion(VersionToken(v)) == v
  {
    var t := VersionToken(v);
    var l := VersionLine(v);
    assert t[..8] == l[..8];
    assert PairValue(t, 0) == v[0] as int && PairValue(t, 3) == v[1] as int && PairValue(t, 6) == v[2] as int;
    var b := VersionBuffer(t);
    assert b[..10] == t;
    HexTripleIs(b, v);
  }

  /** printf("%08x") of a byte, followed by a non-digit, reads back as that byte */
  lemma Hex8ReadsBack(v: byte, rest: seq<byte>)
    requires rest == [] || !IsHexDigit(rest[0])
    ensures ToByte(Strtol16(Hex8(v) + rest)) == v
  {
    var r := Hex8(v) + rest;
    assert r[..8] == Hex8(v);
    assert forall k :: 0 <= k < 6 ==> r[k] == Hex8(v)[..6][k];
    assert r[6] == Hex2(v)[0] && r[7] == Hex2(v)[1];
    assert |r| > 8 ==> r[8] == rest[0];
    PaddedPairValue(r);
  }

  /** The run of hex digits from i ends at j when s[i..j] are digits and s[j] is not */
  lemma {:induction false} HexRunEnds(s: seq<byte>, i: nat, j: nat)
    requires i <= j <= |s| && (forall k :: i <= k < j ==> IsHexDigit(s[k]))
    requires j == |s| || !IsHexDigit(s[j])
    ensures HexRun(s, i) == j
    decreases j - i
  {
    if i < j {
      HexRunEnds(s, i + 1, j);
    }
  }

  /** Leading '0' digits s[i..z] do not change a hex number */
  lemma {:induction false} HexNumberLeadingZeros(s: seq<byte>, i: nat, z: nat, j: nat)
    requires i <= z < j <= |s| && (forall k :: i <= k < z ==> s[k] == 48)
    requires forall k :: i <= k < j ==> IsHexDigit(s[k])
    ensures HexNumber(s, i, j) == HexNumber(s, z, j)
    decreases z - i
  {
    if i < z {
      HexNumberLeadingZero(s, i, j);
      HexNumberLeadingZeros(s, i + 1, z, j);
    }
  }

  /** strtol of six '0' digits, a hex pair and a non-digit is the pair's value */
  lemma PaddedPairValue(r: seq<byte>)
    requires |r| >= 8 && (forall k :: 0 <= k < 6 ==> r[k] == 48) && IsHexDigit(r[6]) && IsHexDigit(r[7])
    requires |r| == 8 || !IsHexDigit(r[8])
    ensures Strtol16(r) == PairValue(r, 6)
  {
    assert SkipSpace(r, 0) == 0;
    HexRunEnds(r, 0, 8);
    HexNumberLeadingZeros(r, 0, 6, 8);
  }

  /** The status reply's first line reads back, through strtol and the uint8_t cast, as the counter */
  lemma StatusCountReadsBack(vault: seq<byte>)
    requires |vault| == VAULT_SIZE
    ensures ToByte(Strtol16(StatusReply(vault))) == vault[0]
  {
    var r := StatusReply(vault);
    assert r == Hex8(vault[0]) + r[8..];
    Hex8ReadsBack(vault[0], r[8..]);
  }

  /** The status reply's second line reads back as slot A's version */
  lemma StatusVersionAReadsBack(vault: seq<byte>)
    requires |vault| == VAULT_SIZE
    ensures HexTriple(StatusReply(vault)[9..]) == VersionOf(vault, APP_A)
  {
    var r := StatusReply(vault);
    assert r[9..] == VersionLine(VersionOf(vault, APP_A)) + r[18..];
    VersionLineReadsBack(VersionOf(vault, APP_A), r[18..]);
  }

  /** The status reply's third line reads back as slot B's version */
  lemma StatusVersionBReadsBack(vault: seq<byte>)
    requires |vault| == VAULT_SIZE
    ensures HexTriple(StatusReply(vault)[18..]) == VersionOf(vault, APP_B)
  {
    var r := StatusReply(vault);
    assert r[18..] == VersionLine(VersionOf(vault, APP_B)) + [];
    VersionLineReadsBack(VersionOf(vault, APP_B), []);
  }

  /** The lines of the first-boot status reply, as text */
  lemma DefaultReplyLines()
    ensures Hex8(1) == [48, 48, 48, 48, 48, 48, 48, 49]
    ensures VersionLine([1, 0, 0]) == [48, 49, DOT, 48, 48, DOT, 48, 48, LF]
    ensures VersionLine([0, 0, 0]) == [48, 48, DOT, 48, 48, DOT, 48, 48, LF]
  {
    assert Hex2(0) == [48, 48] && Hex2(1) == [48, 49];
  }

  /**
    After a first boot the reply to ALL is "00000001\n01.00.00\n00.00.00\n":
    slot A's version reads 01.00.00, because Init stores 0x000001 as a
    little-endian word.
   */
  lemma StatusReplyDefault()
    ensures StatusReply(DefaultVault())
      == [48, 48, 48, 48, 48, 48, 48, 49] + [LF]
         + [48, 49, DOT, 48, 48, DOT, 48, 48, LF]
         + [48, 48, DOT, 48, 48, DOT, 48, 48, LF]
  {
    var v := DefaultVault();
    DefaultVaultBytes();
    assert v[0] == 1 && VersionOf(v, APP_A) == [1, 0, 0] && VersionOf(v, APP_B) == [0, 0, 0];
    DefaultReplyLines();
    assert StatusReply(v) == Hex8(1) + [LF] + VersionLine([1, 0, 0]) + VersionLine([0, 0, 0]);
  }

  // ------------------------------------------------------------------
  // The version gate

  /** strncmp(newAppVersion, currentAppVersion, VERSION_SIZE) > 0 */
  predicate VersionAccepted(candidate: seq<byte>, current: seq<byte>)
    requires |candidate| == VERSION_SIZE && |current| == VERSION_SIZE
  {
    Strncmp(candidate, current, VERSION_SIZE) > 0
  }

  /**
    The gate accepts exactly when, at the first byte where the versions
    differ and before any common zero byte, the new byte is the larger.
   */
  lemma VersionGate(candidate: seq<byte>, current: seq<byte>)
    requires |candidate| == VERSION_SIZE && |current| == VERSION_SIZE
    ensures VersionAccepted(candidate, current) <==> exists k: nat :: GreaterAt(candidate, current, VERSION_SIZE, k)
  {
    StrncmpPositive(candidate, current, VERSION_SIZE);
  }

  /** Equal versions, and versions that both start with a zero byte, are refused */
  lemma VersionGateRefuses(candidate: seq<byte>, current: seq<byte>)
    requires |candidate| == VERSION_SIZE && |current| == VERSION_SIZE
    requires candidate == current || (candidate[0] == 0 && current[0] == 0)
    ensures !VersionAccepted(candidate, current)
  {
  }

  /** The gate is asymmetric: of two versions at most one is newer than the other */
  lemma VersionGateAsymmetric(a: seq<byte>, b: seq<byte>)
    requires |a| == VERSION_SIZE && |b| == VERSION_SIZE
    ensures !(VersionAccepted(a, b) && VersionAccepted(b, a))
  {
    StrncmpAntisymmetric(a, b, VERSION_SIZE);
  }

  /** Lexicographic order of three bytes */
  predicate LexGreater(a: seq<byte>, b: seq<byte>)
    requires |a| == VERSION_SIZE && |b| == VERSION_SIZE
  {
    || a[0] > b[0]
    || (a[0] == b[0] && a[1] > b[1])
    || (a[0] == b[0] && a[1] == b[1] && a[2] > b[2])
  }

  /** For a new version without zero bytes the gate is plain lexicographic order */
  lemma VersionGateLexicographic(candidate: seq<byte>, current: seq<byte>)
    requires |candidate| == VERSION_SIZE && |current| == VERSION_SIZE
    requires forall k :: 0 <= k < VERSION_SIZE ==> candidate[k] != 0
    ensures VersionAccepted(candidate, current) <==> LexGreater(candidate, current)
  {
    VersionGate(candidate, current);
    if LexGreater(candidate, current) {
      if candidate[0] > current[0] {
        assert GreaterAt(candidate, current, VERSION_SIZE, 0);
      } else if candidate[1] > current[1] {
        assert GreaterAt(candidate, current, VERSION_SIZE, 1);
      } else {
        assert GreaterAt(candidate, current, VERSION_SIZE, 2);
      }
    }
  }
}
