/**
  Flash as a byte map and the HAL calls STM32_Bootloader_Flash makes.

  The outcome of the k-th HAL erase/program call of a run is `outcome(k)`
  (true is HAL_OK); the calls are recorded, with their outcomes, in a log.
  An address absent from the map reads as erased (0xFF). A failed call is
  taken to leave flash as it was.
 */
module FlashLog {
  import opened Bytes

  datatype HalCall =
    | Erase(page: int, pages: int, ok: bool)          // HAL_FLASHEx_Erase of `pages` pages from `page`
    | Program(address: int, word: seq<byte>, ok: bool) // HAL_FLASH_Program of one double-word

  type Flash = map<int, byte>

  function Read(f: Flash, a: int): byte {
    if a in f then f[a] else 0xFF
  }

  function ReadBytes(f: Flash, a: int, n: nat): (r: seq<byte>)
    ensures |r| == n && forall i :: 0 <= i < n ==> r[i] == Read(f, a + i)
  {
    seq(n, i => Read(f, a + i))
  }

  /** Address `a` lies in the `pages` pages from page `page` */
  predicate InPages(base: int, pageSize: nat, page: int, pages: int, a: int) {
    base + page * pageSize <= a < base + (page + pages) * pageSize
  }

  /** Flash with the given pages erased */
  function ErasePagesOf(base: int, pageSize: nat, f: Flash, page: int, pages: int): (g: Flash)
    ensures forall a :: Read(g, a) == if InPages(base, pageSize, page, pages, a) then 0xFF else Read(f, a)
  {
    map a | a in f && !InPages(base, pageSize, page, pages, a) :: f[a]
  }

  /** Flash with `word` written from `address` on */
  function WriteBytes(f: Flash, address: int, word: seq<byte>): (g: Flash)
    decreases |word|
  {
    if word == [] then f else WriteBytes(f[address := word[0]], address + 1, word[1..])
  }

  lemma {:induction false} ReadWriteBytes(f: Flash, address: int, word: seq<byte>, a: int)
    ensures Read(WriteBytes(f, address, word), a) == if address <= a < address + |word| then word[a - address] else Read(f, a)
    decreases |word|
  {
    if word != [] {
      ReadWriteBytes(f[address := word[0]], address + 1, word[1..], a);
    }
  }

  /** Flash after one call; a failed call changes nothing */
  function ApplyCall(base: int, pageSize: nat, f: Flash, c: HalCall): Flash {
    if !c.ok then f
    else match c
      case Erase(page, pages, _) => ErasePagesOf(base, pageSize, f, page, pages)
      case Program(address, word, _) => WriteBytes(f, address, word)
  }

  function Last(log: seq<HalCall>): HalCall
    requires log != []
  {
    log[|log| - 1]
  }

  /** Flash after a log of calls, oldest first */
  function ApplyLog(base: int, pageSize: nat, f: Flash, log: seq<HalCall>): Flash
    decreases |log|
  {
    if log == [] then f
    else ApplyCall(base, pageSize, ApplyLog(base, pageSize, f, log[..|log| - 1]), log[|log| - 1])
  }

  lemma {:induction false} ApplyLogAppend(base: int, pageSize: nat, f: Flash, a: seq<HalCall>, b: seq<HalCall>)
    ensures ApplyLog(base, pageSize, f, a + b) == ApplyLog(base, pageSize, ApplyLog(base, pageSize, f, a), b)
    decreases |b|
  {
    if b == [] {
      assert a + b == a;
    } else {
      var b' := b[..|b| - 1];
      assert (a + b)[..|a + b| - 1] == a + b';
      ApplyLogAppend(base, pageSize, f, a, b');
    }
  }

  // ------------------------------------------------------------------
  // Bounded retry

  /** The call with outcome `ok` */
  function WithOutcome(c: HalCall, ok: bool): (r: HalCall)
    ensures r.ok == ok
  {
    match c
    case Erase(page, pages, _) => Erase(page, pages, ok)
    case Program(address, word, _) => Program(address, word, ok)
  }

  /**
    The calls an operation retried up to `tries` times makes, when its
    attempts get the outcomes outcome(k), outcome(k + 1), ...: it stops after
    the first success.
   */
  function Retried(call: HalCall, outcome: nat -> bool, k: nat, tries: nat): seq<HalCall>
    decreases tries
  {
    if tries == 0 then []
    else if outcome(k) then [WithOutcome(call, true)]
    else [WithOutcome(call, false)] + Retried(call, outcome, k + 1, tries - 1)
  }

  /** Some attempt among the `tries` from call k succeeds */
  predicate RetriedOk(outcome: nat -> bool, k: nat, tries: nat)
    decreases tries
  {
    tries > 0 && (outcome(k) || RetriedOk(outcome, k + 1, tries - 1))
  }

  /**
    The shape of the attempts `r` of a call retried up to `tries` times from
    HAL call k: between 1 and `tries` attempts, each the same request with the
    outcome of its call; every attempt but the last fails; the operation
    succeeds exactly when its last attempt does, and else makes all `tries`.
   */
  predicate Attempts(r: seq<HalCall>, call: HalCall, outcome: nat -> bool, k: nat, tries: nat) {
    && 1 <= |r| <= tries
    && (forall j :: 0 <= j < |r| ==> r[j] == WithOutcome(call, outcome(k + j)))
    && (forall j :: 0 <= j < |r| - 1 ==> !r[j].ok)
    && (RetriedOk(outcome, k, tries) <==> r[|r| - 1].ok)
    && (!RetriedOk(outcome, k, tries) ==> |r| == tries)
  }

  lemma {:induction false} RetriedShape(call: HalCall, outcome: nat -> bool, k: nat, tries: nat)
    requires tries > 0
    ensures Attempts(Retried(call, outcome, k, tries), call, outcome, k, tries)
    decreases tries
  {
    var r := Retried(call, outcome, k, tries);
    if !outcome(k) && tries > 1 {
      RetriedShape(call, outcome, k + 1, tries - 1);
      var r' := Retried(call, outcome, k + 1, tries - 1);
      assert r == [WithOutcome(call, false)] + r';
      forall j | 1 <= j < |r| ensures r[j] == WithOutcome(call, outcome(k + j)) {
        assert r[j] == r'[j - 1];
      }
    }
  }

  /** The attempts of a retried call after j failures from call k0: `failed` holds them, and the rest is still to come */
  predicate RetriedSoFar(call: HalCall, outcome: nat -> bool, k0: nat, tries: nat, failed: seq<HalCall>, j: nat) {
    && j <= tries && |failed| == j
    && (forall m :: 0 <= m < j ==> failed[m] == WithOutcome(call, false))
    && Retried(call, outcome, k0, tries) == failed + Retried(call, outcome, k0 + j, tries - j)
    && RetriedOk(outcome, k0, tries) == RetriedOk(outcome, k0 + j, tries - j)
  }

  lemma RetriedFrom(call: HalCall, outcome: nat -> bool, k0: nat, tries: nat)
    ensures RetriedSoFar(call, outcome, k0, tries, [], 0)
  {
  }

  /** A failed attempt with tries left is one more failure */
  lemma RetriedFails(call: HalCall, outcome: nat -> bool, k0: nat, tries: nat, failed: seq<HalCall>, j: nat)
    requires RetriedSoFar(call, outcome, k0, tries, failed, j) && j < tries && !outcome(k0 + j)
    ensures RetriedSoFar(call, outcome, k0, tries, failed + [WithOutcome(call, false)], j + 1)
  {
    var rest := Retried(call, outcome, k0 + j + 1, tries - j - 1);
    assert failed + ([WithOutcome(call, false)] + rest) == (failed + [WithOutcome(call, false)]) + rest;
  }

  /**
    A successful attempt ends the call: from log h0 and flash f0, the log
    and flash after it are those of the whole retried call, and it succeeded.
   */
  lemma RetriedSucceeds(base: int, pageSize: nat, f0: Flash, f: Flash, h0: seq<HalCall>, h: seq<HalCall>, call: HalCall,
                        outcome: nat -> bool, tries: nat, failed: seq<HalCall>, j: nat)
    requires RetriedSoFar(call, outcome, |h0|, tries, failed, j) && j < tries && outcome(|h0| + j)
    requires h == (h0 + failed) + [WithOutcome(call, true)]
    requires f == ApplyCall(base, pageSize, f0, WithOutcome(call, true))
    ensures h == h0 + Retried(call, outcome, |h0|, tries) && RetriedOk(outcome, |h0|, tries)
    ensures f == ApplyLog(base, pageSize, f0, Retried(call, outcome, |h0|, tries))
  {
    ApplyFailed(base, pageSize, f0, failed);
    assert (failed + [WithOutcome(call, true)])[..j] == failed;
  }

  /** With every try used up the call failed, the log holds the failures and flash is unchanged */
  lemma RetriedExhausted(base: int, pageSize: nat, f0: Flash, h0: seq<HalCall>, h: seq<HalCall>, call: HalCall,
                         outcome: nat -> bool, tries: nat, failed: seq<HalCall>)
    requires RetriedSoFar(call, outcome, |h0|, tries, failed, tries) && h == h0 + failed
    ensures h == h0 + Retried(call, outcome, |h0|, tries) && !RetriedOk(outcome, |h0|, tries)
    ensures f0 == ApplyLog(base, pageSize, f0, Retried(call, outcome, |h0|, tries))
  {
    assert failed + [] == failed;
    ApplyFailed(base, pageSize, f0, failed);
  }

  /** Failed calls leave flash alone */
  lemma {:induction false} ApplyFailed(base: int, pageSize: nat, f: Flash, log: seq<HalCall>)
    requires forall j :: 0 <= j < |log| ==> !log[j].ok
    ensures ApplyLog(base, pageSize, f, log) == f
    decreases |log|
  {
    if log != [] {
      ApplyFailed(base, pageSize, f, log[..|log| - 1]);
    }
  }

  /** A retried call that succeeds has the effect of one successful call */
  lemma ApplyRetried(base: int, pageSize: nat, f: Flash, call: HalCall, outcome: nat -> bool, k: nat, tries: nat)
    requires RetriedOk(outcome, k, tries)
    ensures ApplyLog(base, pageSize, f, Retried(call, outcome, k, tries)) == ApplyCall(base, pageSize, f, WithOutcome(call, true))
  {
    RetriedShape(call, outcome, k, tries);
    var r := Retried(call, outcome, k, tries);
    var n := |r| - 1;
    ApplyFailed(base, pageSize, f, r[..n]);
    assert r[n] == WithOutcome(call, true);
  }

  // ------------------------------------------------------------------
  // STM32_Bootloader_Flash

  /** The page holding `address`; the subtraction is uint32 arithmetic */
  function ErasePage(base: int, pageSize: nat, address: int): int
    requires pageSize > 0
  {
    ((address - base) % 0x1_0000_0000) / pageSize
  }

  /** offset / FLASH_PAGE_SIZE + 1 pages */
  function ErasePages(pageSize: nat, offset: nat): int
    requires pageSize > 0
  {
    offset / pageSize + 1
  }

  /** What the double-word loop needs: every unit it copies lies inside `data` */
  predicate ProgramInBounds(data: seq<byte>, offset: nat) {
    offset <= |data| && |data| % DOUBLE_WORD == 0
  }

  /** The calls of one double-word unit, retried */
  function UnitLog(outcome: nat -> bool, k: nat, tries: nat, data: seq<byte>, address: int, i: nat): seq<HalCall>
    requires i + DOUBLE_WORD <= |data|
  {
    Retried(Program(address + i, data[i..i + DOUBLE_WORD], false), outcome, k, tries)
  }

  /** The program calls for the double-words at address + i, address + i + 8, ... below address + offset */
  function ProgramLog(outcome: nat -> bool, k: nat, tries: nat, data: seq<byte>, address: int, i: nat, offset: nat): seq<HalCall>
    requires ProgramInBounds(data, offset) && i % DOUBLE_WORD == 0
    decreases offset - i
  {
    if i >= offset then []
    else
      var unit := UnitLog(outcome, k, tries, data, address, i);
      if RetriedOk(outcome, k, tries)
      then unit + ProgramLog(outcome, k + |unit|, tries, data, address, i + DOUBLE_WORD, offset)
      else unit
  }

  /** Every double-word from address + i on is programmed within its retries */
  predicate ProgramOk(outcome: nat -> bool, k: nat, tries: nat, data: seq<byte>, address: int, i: nat, offset: nat)
    requires ProgramInBounds(data, offset) && i % DOUBLE_WORD == 0
    decreases offset - i
  {
    if i >= offset then true
    else
      var unit := UnitLog(outcome, k, tries, data, address, i);
      RetriedOk(outcome, k, tries) && ProgramOk(outcome, k + |unit|, tries, data, address, i + DOUBLE_WORD, offset)
  }

  /** The calls of STM32_Bootloader_Flash(data, address, offset), starting at HAL call number k */
  function FlashCalls(base: int, pageSize: nat, outcome: nat -> bool, k: nat, tries: nat, data: seq<byte>, address: int, offset: nat): seq<HalCall>
    requires pageSize > 0 && ProgramInBounds(data, offset)
  {
    var erase := Retried(Erase(ErasePage(base, pageSize, address), ErasePages(pageSize, offset), false), outcome, k, tries);
    if RetriedOk(outcome, k, tries)
    then erase + ProgramLog(outcome, k + |erase|, tries, data, address, 0, offset)
    else erase
  }

  /** The result of STM32_Bootloader_Flash: the erase and every double-word succeeded */
  predicate FlashOk(base: int, pageSize: nat, outcome: nat -> bool, k: nat, tries: nat, data: seq<byte>, address: int, offset: nat)
    requires pageSize > 0 && ProgramInBounds(data, offset)
  {
    var erase := Retried(Erase(ErasePage(base, pageSize, address), ErasePages(pageSize, offset), false), outcome, k, tries);
    RetriedOk(outcome, k, tries) && ProgramOk(outcome, k + |erase|, tries, data, address, 0, offset)
  }

  /**
    The double-word loop of STM32_Bootloader_Flash at index i, with log h
    and flash f: the calls still to come complete h to the whole log H, and
    flash f to the final flash F; ok is the final result.
   */
  predicate ProgramSoFar(base: int, pageSize: nat, outcome: nat -> bool, tries: nat, data: seq<byte>, address: int,
                         i: nat, offset: nat, h: seq<HalCall>, f: Flash, H: seq<HalCall>, F: Flash, ok: bool)
    requires ProgramInBounds(data, offset) && i % DOUBLE_WORD == 0
  {
    && h + ProgramLog(outcome, |h|, tries, data, address, i, offset) == H
    && ApplyLog(base, pageSize, f, ProgramLog(outcome, |h|, tries, data, address, i, offset)) == F
    && ProgramOk(outcome, |h|, tries, data, address, i, offset) == ok
  }

  /** The erase of a Flash call from log h0 and flash f0 */
  function EraseLog(base: int, pageSize: nat, outcome: nat -> bool, k: nat, tries: nat, address: int, offset: nat): seq<HalCall>
    requires pageSize > 0
  {
    Retried(Erase(ErasePage(base, pageSize, address), ErasePages(pageSize, offset), false), outcome, k, tries)
  }

  /** A failed erase ends the Flash call: its log is the erase, flash is as the erase left it, and it failed */
  lemma EraseFailed(base: int, pageSize: nat, outcome: nat -> bool, tries: nat, data: seq<byte>, address: int, offset: nat,
                    h0: seq<HalCall>, f0: Flash, h: seq<HalCall>, f: Flash)
    requires pageSize > 0 && ProgramInBounds(data, offset) && !RetriedOk(outcome, |h0|, tries)
    requires h == h0 + EraseLog(base, pageSize, outcome, |h0|, tries, address, offset)
    requires f == ApplyLog(base, pageSize, f0, EraseLog(base, pageSize, outcome, |h0|, tries, address, offset))
    ensures h == h0 + FlashCalls(base, pageSize, outcome, |h0|, tries, data, address, offset)
    ensures f == ApplyLog(base, pageSize, f0, FlashCalls(base, pageSize, outcome, |h0|, tries, data, address, offset))
    ensures !FlashOk(base, pageSize, outcome, |h0|, tries, data, address, offset)
  {
  }

  /** A successful erase starts the double-word loop at index 0 */
  lemma EraseSucceeded(base: int, pageSize: nat, outcome: nat -> bool, tries: nat, data: seq<byte>, address: int, offset: nat,
                       h0: seq<HalCall>, f0: Flash, h: seq<HalCall>, f: Flash)
    requires pageSize > 0 && ProgramInBounds(data, offset) && RetriedOk(outcome, |h0|, tries)
    requires h == h0 + EraseLog(base, pageSize, outcome, |h0|, tries, address, offset)
    requires f == ApplyLog(base, pageSize, f0, EraseLog(base, pageSize, outcome, |h0|, tries, address, offset))
    ensures ProgramSoFar(base, pageSize, outcome, tries, data, address, 0, offset, h, f,
                         h0 + FlashCalls(base, pageSize, outcome, |h0|, tries, data, address, offset),
                         ApplyLog(base, pageSize, f0, FlashCalls(base, pageSize, outcome, |h0|, tries, data, address, offset)),
                         FlashOk(base, pageSize, outcome, |h0|, tries, data, address, offset))
  {
    var erase := EraseLog(base, pageSize, outcome, |h0|, tries, address, offset);
    var k := |h0| + |erase|;
    EraseThenProgram(base, pageSize, outcome, tries, data, address, offset, |h0|, erase, k);
    assert |h| == k;
    var prog := ProgramLog(outcome, k, tries, data, address, 0, offset);
    assert h + prog == h0 + (erase + prog);
    ApplyLogAppend(base, pageSize, f0, erase, prog);
  }

  /** After a successful erase the calls of a Flash call are the erase's followed by the double-words' */
  lemma EraseThenProgram(base: int, pageSize: nat, outcome: nat -> bool, tries: nat, data: seq<byte>, address: int,
                         offset: nat, k0: nat, erase: seq<HalCall>, k: nat)
    requires pageSize > 0 && ProgramInBounds(data, offset) && RetriedOk(outcome, k0, tries)
    requires erase == EraseLog(base, pageSize, outcome, k0, tries, address, offset) && k == k0 + |erase|
    ensures FlashCalls(base, pageSize, outcome, k0, tries, data, address, offset)
            == erase + ProgramLog(outcome, k, tries, data, address, 0, offset)
    ensures FlashOk(base, pageSize, outcome, k0, tries, data, address, offset)
            == ProgramOk(outcome, k, tries, data, address, 0, offset)
  {
  }

  /** A double-word programmed within its retries moves the loop on to i + 8 */
  lemma UnitSucceeded(base: int, pageSize: nat, outcome: nat -> bool, tries: nat, data: seq<byte>, address: int,
                      i: nat, offset: nat, h: seq<HalCall>, f: Flash, h': seq<HalCall>, f': Flash,
                      H: seq<HalCall>, F: Flash, ok: bool)
    requires ProgramInBounds(data, offset) && i % DOUBLE_WORD == 0 && i < offset
    requires ProgramSoFar(base, pageSize, outcome, tries, data, address, i, offset, h, f, H, F, ok)
    requires i + DOUBLE_WORD <= |data| && RetriedOk(outcome, |h|, tries)
    requires h' == h + UnitLog(outcome, |h|, tries, data, address, i)
    requires f' == ApplyLog(base, pageSize, f, UnitLog(outcome, |h|, tries, data, address, i))
    ensures ProgramSoFar(base, pageSize, outcome, tries, data, address, i + DOUBLE_WORD, offset, h', f', H, F, ok)
  {
    ProgramLogUnfold(outcome, |h|, tries, data, address, i, offset);
    AlignedNext(i);
    var unit := UnitLog(outcome, |h|, tries, data, address, i);
    var k := |h| + |unit|;
    assert |h'| == k;
    var rest := ProgramLog(outcome, k, tries, data, address, i + DOUBLE_WORD, offset);
    LogStep(base, pageSize, h, f, unit, rest, h', f');
  }

  /** Splitting a log: having made its first part, what is left to make is the rest */
  lemma LogStep(base: int, pageSize: nat, h: seq<HalCall>, f: Flash, first: seq<HalCall>, rest: seq<HalCall>,
                h': seq<HalCall>, f': Flash)
    requires h' == h + first && f' == ApplyLog(base, pageSize, f, first)
    ensures h' + rest == h + (first + rest)
    ensures ApplyLog(base, pageSize, f', rest) == ApplyLog(base, pageSize, f, first + rest)
  {
    ApplyLogAppend(base, pageSize, f, first, rest);
  }

  /** A double-word that fails all its retries ends the Flash call with the whole log and flash, and it failed */
  lemma UnitFailed(base: int, pageSize: nat, outcome: nat -> bool, tries: nat, data: seq<byte>, address: int,
                   i: nat, offset: nat, h: seq<HalCall>, f: Flash, h': seq<HalCall>, f': Flash,
                   H: seq<HalCall>, F: Flash, ok: bool)
    requires ProgramInBounds(data, offset) && i % DOUBLE_WORD == 0 && i < offset
    requires ProgramSoFar(base, pageSize, outcome, tries, data, address, i, offset, h, f, H, F, ok)
    requires i + DOUBLE_WORD <= |data| && !RetriedOk(outcome, |h|, tries)
    requires h' == h + UnitLog(outcome, |h|, tries, data, address, i)
    requires f' == ApplyLog(base, pageSize, f, UnitLog(outcome, |h|, tries, data, address, i))
    ensures h' == H && f' == F && !ok
  {
    ProgramLogUnfold(outcome, |h|, tries, data, address, i, offset);
  }

  /** Past the offset the loop is over: the log and flash are the whole call's, and it succeeded */
  lemma ProgramDone(base: int, pageSize: nat, outcome: nat -> bool, tries: nat, data: seq<byte>, address: int,
                    i: nat, offset: nat, h: seq<HalCall>, f: Flash, H: seq<HalCall>, F: Flash, ok: bool)
    requires ProgramInBounds(data, offset) && i % DOUBLE_WORD == 0 && i >= offset
    requires ProgramSoFar(base, pageSize, outcome, tries, data, address, i, offset, h, f, H, F, ok)
    ensures h == H && f == F && ok
  {
    assert h + [] == h;
  }

  /**
    Erasing: the first calls are erase requests for page (address - base) / pageSize
    and offset / pageSize + 1 pages, at most five of them, stopping at the first
    success; when all five fail nothing is programmed and the result is false.
   */
  lemma EraseRetries(base: int, pageSize: nat, outcome: nat -> bool, k: nat, tries: nat, data: seq<byte>, address: int, offset: nat)
    requires pageSize > 0 && ProgramInBounds(data, offset) && tries > 0
    ensures var calls := FlashCalls(base, pageSize, outcome, k, tries, data, address, offset);
      var erase := Retried(Erase(ErasePage(base, pageSize, address), ErasePages(pageSize, offset), false), outcome, k, tries);
      && 1 <= |erase| <= tries && calls[..|erase|] == erase
      && (forall j :: 0 <= j < |erase| ==> erase[j].Erase? && erase[j].page == ErasePage(base, pageSize, address)
                                           && erase[j].pages == offset / pageSize + 1)
      && (forall j :: 0 <= j < |erase| - 1 ==> !erase[j].ok)
      && (!RetriedOk(outcome, k, tries) ==>
            calls == erase && |erase| == tries && !FlashOk(base, pageSize, outcome, k, tries, data, address, offset))
  {
    RetriedShape(Erase(ErasePage(base, pageSize, address), ErasePages(pageSize, offset), false), outcome, k, tries);
  }

  /** Unit arithmetic: an aligned i below an aligned bound leaves room for a whole double-word */
  lemma AlignedFits(i: nat, n: nat)
    requires i % DOUBLE_WORD == 0 && n % DOUBLE_WORD == 0 && i < n
    ensures i + DOUBLE_WORD <= n
  {
  }

  lemma AlignedNext(i: nat)
    requires i % DOUBLE_WORD == 0
    ensures (i + DOUBLE_WORD) % DOUBLE_WORD == 0
  {
  }

  /** A program call for the aligned double-word of `data` at offset c.address - address, which lies in [i, offset) */
  predicate UnitCall(c: HalCall, data: seq<byte>, address: int, i: nat, offset: nat)
    requires ProgramInBounds(data, offset)
  {
    && c.Program? && i <= c.address - address < offset && (c.address - address) % DOUBLE_WORD == 0
    && c.address - address + DOUBLE_WORD <= |data|
    && c.word == data[c.address - address..c.address - address + DOUBLE_WORD]
  }

  /** Every call of `log` is a UnitCall */
  predicate UnitCalls(log: seq<HalCall>, data: seq<byte>, address: int, i: nat, offset: nat)
    requires ProgramInBounds(data, offset)
  {
    forall j :: 0 <= j < |log| ==> UnitCall(log[j], data, address, i, offset)
  }

  /** Program calls in ascending order of address */
  predicate Ascending(log: seq<HalCall>)
    requires forall j :: 0 <= j < |log| ==> log[j].Program?
  {
    forall j, j' :: 0 <= j < j' < |log| ==> log[j].address <= log[j'].address
  }

  /**
    At most `tries` attempts per address: calls for the same address lie
    fewer than `tries` apart, and a failed call is followed, if at all, by
    a retry of the same address.
   */
  predicate BoundedRetries(log: seq<HalCall>, tries: nat)
    requires forall j :: 0 <= j < |log| ==> log[j].Program?
  {
    && (forall j, j' :: 0 <= j < j' < |log| && log[j].address == log[j'].address ==> j' - j < tries)
    && (forall j :: 0 <= j < |log| - 1 && !log[j].ok ==> log[j + 1].address == log[j].address)
  }

  /** The last `tries` calls all failed, on one address */
  predicate GaveUp(log: seq<HalCall>, tries: nat)
    requires forall j :: 0 <= j < |log| ==> log[j].Program?
  {
    |log| >= tries && forall j :: |log| - tries <= j < |log| ==> !log[j].ok && log[j].address == log[|log| - 1].address
  }

  /** ProgramLog from unit i, split into the first unit and the rest */
  lemma ProgramLogUnfold(outcome: nat -> bool, k: nat, tries: nat, data: seq<byte>, address: int, i: nat, offset: nat)
    requires ProgramInBounds(data, offset) && i % DOUBLE_WORD == 0 && i < offset
    ensures i + DOUBLE_WORD <= |data|
    ensures RetriedOk(outcome, k, tries) ==>
      ProgramLog(outcome, k, tries, data, address, i, offset)
        == UnitLog(outcome, k, tries, data, address, i)
           + ProgramLog(outcome, k + |UnitLog(outcome, k, tries, data, address, i)|, tries, data, address, i + DOUBLE_WORD, offset)
    ensures !RetriedOk(outcome, k, tries) ==> ProgramLog(outcome, k, tries, data, address, i, offset) == UnitLog(outcome, k, tries, data, address, i)
    ensures ProgramOk(outcome, k, tries, data, address, i, offset) <==>
      RetriedOk(outcome, k, tries) && ProgramOk(outcome, k + |UnitLog(outcome, k, tries, data, address, i)|, tries, data, address, i + DOUBLE_WORD, offset)
  {
    AlignedFits(i, |data|);
  }

  /** One unit's attempts: up to `tries` calls programming data[i..i + 8] at address + i, the last ok exactly when the unit is */
  lemma UnitLogShape(outcome: nat -> bool, k: nat, tries: nat, data: seq<byte>, address: int, i: nat, offset: nat)
    requires ProgramInBounds(data, offset) && i % DOUBLE_WORD == 0 && i < offset && tries > 0
    ensures i + DOUBLE_WORD <= |data|
    ensures UnitCalls(UnitLog(outcome, k, tries, data, address, i), data, address, i, offset)
    ensures SameAddress(UnitLog(outcome, k, tries, data, address, i), address + i)
    ensures 1 <= |UnitLog(outcome, k, tries, data, address, i)| <= tries
    ensures forall j :: 0 <= j < |UnitLog(outcome, k, tries, data, address, i)| - 1 ==> !UnitLog(outcome, k, tries, data, address, i)[j].ok
    ensures RetriedOk(outcome, k, tries) <==> Last(UnitLog(outcome, k, tries, data, address, i)).ok
    ensures !RetriedOk(outcome, k, tries) ==> |UnitLog(outcome, k, tries, data, address, i)| == tries
  {
    AlignedFits(i, |data|);
    var call := Program(address + i, data[i..i + DOUBLE_WORD], false);
    RetriedShape(call, outcome, k, tries);
    var unit := UnitLog(outcome, k, tries, data, address, i);
    forall j | 0 <= j < |unit| ensures unit[j] == WithOutcome(call, outcome(k + j)) {
    }
  }

  /** Every attempt of one unit programs data[i..i + 8] at address + i */
  lemma UnitLogUnits(outcome: nat -> bool, k: nat, tries: nat, data: seq<byte>, address: int, i: nat, offset: nat)
    requires ProgramInBounds(data, offset) && i % DOUBLE_WORD == 0 && i < offset && tries > 0
    ensures UnitCalls(UnitLog(outcome, k, tries, data, address, i), data, address, i, offset)
  {
    AlignedFits(i, |data|);
    var call := Program(address + i, data[i..i + DOUBLE_WORD], false);
    var unit := UnitLog(outcome, k, tries, data, address, i);
    RetriedShape(call, outcome, k, tries);
    forall j | 0 <= j < |unit| ensures UnitCall(unit[j], data, address, i, offset) {
      assert unit[j] == WithOutcome(call, outcome(k + j));
    }
  }

  /** One unit's attempts are not empty, and the last one succeeds exactly when the unit does */
  lemma UnitLogLast(outcome: nat -> bool, k: nat, tries: nat, data: seq<byte>, address: int, i: nat, offset: nat)
    requires ProgramInBounds(data, offset) && i % DOUBLE_WORD == 0 && i < offset && tries > 0
    ensures i + DOUBLE_WORD <= |data|
    ensures UnitLog(outcome, k, tries, data, address, i) != []
    ensures RetriedOk(outcome, k, tries) <==> Last(UnitLog(outcome, k, tries, data, address, i)).ok
  {
    AlignedFits(i, |data|);
    RetriedShape(Program(address + i, data[i..i + DOUBLE_WORD], false), outcome, k, tries);
  }

  /** Every call of `log` programs address p */
  predicate SameAddress(log: seq<HalCall>, p: int) {
    forall j :: 0 <= j < |log| ==> log[j].Program? && log[j].address == p
  }

  lemma UnitCallsAppend(a: seq<HalCall>, b: seq<HalCall>, data: seq<byte>, address: int, i: nat, i': nat, offset: nat)
    requires ProgramInBounds(data, offset) && i <= i'
    requires UnitCalls(a, data, address, i, offset) && UnitCalls(b, data, address, i', offset)
    ensures UnitCalls(a + b, data, address, i, offset)
  {
    forall j | 0 <= j < |a + b| ensures UnitCall((a + b)[j], data, address, i, offset) {
      if j >= |a| {
        assert (a + b)[j] == b[j - |a|];
        assert UnitCall(b[j - |a|], data, address, i', offset);
      }
    }
  }

  /** Calls all on p followed by ascending calls above p are ascending */
  lemma AscendingAppend(a: seq<HalCall>, b: seq<HalCall>, p: int)
    requires SameAddress(a, p)
    requires forall j :: 0 <= j < |b| ==> b[j].Program? && p < b[j].address
    requires Ascending(b)
    ensures forall j :: 0 <= j < |a + b| ==> (a + b)[j].Program?
    ensures Ascending(a + b)
  {
    var c := a + b;
    forall j | 0 <= j < |c| ensures c[j].Program? {
      if j >= |a| { assert c[j] == b[j - |a|]; }
    }
    forall j, j' | 0 <= j < j' < |c| ensures c[j].address <= c[j'].address {
      if j' < |a| {
        assert c[j] == a[j] && c[j'] == a[j'];
      } else if j < |a| {
        assert c[j] == a[j] && c[j'] == b[j' - |a|];
      } else {
        assert c[j] == b[j - |a|] && c[j'] == b[j' - |a|];
      }
    }
  }

  /** One unit's attempts, ending in success, followed by bounded retries above p */
  lemma BoundedRetriesAppend(c: seq<HalCall>, a: seq<HalCall>, b: seq<HalCall>, p: int, tries: nat)
    requires c == a + b
    requires SameAddress(a, p) && |a| <= tries
    requires forall j :: 0 <= j < |a| - 1 ==> !a[j].ok
    requires a != [] && Last(a).ok
    requires forall j :: 0 <= j < |b| ==> b[j].Program? && p < b[j].address
    requires BoundedRetries(b, tries)
    ensures forall j :: 0 <= j < |c| ==> c[j].Program?
    ensures BoundedRetries(c, tries)
  {
    forall j | 0 <= j < |c| ensures c[j].Program? {
      if j >= |a| { assert c[j] == b[j - |a|]; }
    }
    forall j, j' | 0 <= j < j' < |a| && c[j].address == c[j'].address ensures j' - j < tries {
      assert c[j] == a[j] && c[j'] == a[j'];
    }
    forall j, j' | |a| <= j < j' < |c| && c[j].address == c[j'].address ensures j' - j < tries {
      assert c[j] == b[j - |a|] && c[j'] == b[j' - |a|];
    }
    forall j | 0 <= j < |a| - 1 ensures c[j + 1].address == c[j].address {
      assert c[j] == a[j] && c[j + 1] == a[j + 1];
    }
    forall j | |a| <= j < |c| - 1 && !c[j].ok ensures c[j + 1].address == c[j].address {
      assert c[j] == b[j - |a|] && c[j + 1] == b[j + 1 - |a|];
    }
    assert c[|a| - 1].ok;
  }

  /** UnitCalls from unit i lie at or above address + i */
  lemma UnitCallsAbove(log: seq<HalCall>, data: seq<byte>, address: int, i: nat, offset: nat)
    requires ProgramInBounds(data, offset) && UnitCalls(log, data, address, i, offset)
    ensures forall j :: 0 <= j < |log| ==> log[j].Program? && address + i <= log[j].address
  {
    forall j | 0 <= j < |log| ensures log[j].Program? && address + i <= log[j].address {
      assert UnitCall(log[j], data, address, i, offset);
    }
  }

  /** Every call ProgramLog makes from unit i programs one aligned double-word of data at or above address + i, below address + offset */
  lemma {:induction false} ProgramLogUnits(outcome: nat -> bool, k: nat, tries: nat, data: seq<byte>, address: int, i: nat, offset: nat)
    requires ProgramInBounds(data, offset) && i % DOUBLE_WORD == 0 && tries > 0
    ensures UnitCalls(ProgramLog(outcome, k, tries, data, address, i, offset), data, address, i, offset)
    decreases offset - i
  {
    if i < offset {
      ProgramLogUnfold(outcome, k, tries, data, address, i, offset);
      UnitLogUnits(outcome, k, tries, data, address, i, offset);
      var unit := UnitLog(outcome, k, tries, data, address, i);
      var log := ProgramLog(outcome, k, tries, data, address, i, offset);
      if RetriedOk(outcome, k, tries) {
        var k' := k + |unit|;
        AlignedNext(i);
        var rest := ProgramLog(outcome, k', tries, data, address, i + DOUBLE_WORD, offset);
        assert log == unit + rest;
        ProgramLogUnits(outcome, k', tries, data, address, i + DOUBLE_WORD, offset);
        UnitCallsAppend(unit, rest, data, address, i, i + DOUBLE_WORD, offset);
      } else {
        assert log == unit;
      }
    }
  }

  /** The units are programmed in ascending order of address */
  lemma {:induction false} ProgramLogAscending(outcome: nat -> bool, k: nat, tries: nat, data: seq<byte>, address: int, i: nat, offset: nat)
    requires ProgramInBounds(data, offset) && i % DOUBLE_WORD == 0 && tries > 0
    ensures UnitCalls(ProgramLog(outcome, k, tries, data, address, i, offset), data, address, i, offset)
    ensures Ascending(ProgramLog(outcome, k, tries, data, address, i, offset))
    decreases offset - i
  {
    ProgramLogUnits(outcome, k, tries, data, address, i, offset);
    UnitCallsAbove(ProgramLog(outcome, k, tries, data, address, i, offset), data, address, i, offset);
    if i < offset {
      ProgramLogUnfold(outcome, k, tries, data, address, i, offset);
      UnitLogShape(outcome, k, tries, data, address, i, offset);
      var unit := UnitLog(outcome, k, tries, data, address, i);
      if RetriedOk(outcome, k, tries) {
        var rest := ProgramLog(outcome, k + |unit|, tries, data, address, i + DOUBLE_WORD, offset);
        ProgramLogAscending(outcome, k + |unit|, tries, data, address, i + DOUBLE_WORD, offset);
        UnitCallsAbove(rest, data, address, i + DOUBLE_WORD, offset);
        AscendingAppend(unit, rest, address + i);
      }
    }
  }

  /** Each unit is attempted at most `tries` times, and only a failure leads to a retry */
  lemma {:induction false} ProgramLogRetries(outcome: nat -> bool, k: nat, tries: nat, data: seq<byte>, address: int, i: nat, offset: nat)
    requires ProgramInBounds(data, offset) && i % DOUBLE_WORD == 0 && tries > 0
    ensures UnitCalls(ProgramLog(outcome, k, tries, data, address, i, offset), data, address, i, offset)
    ensures BoundedRetries(ProgramLog(outcome, k, tries, data, address, i, offset), tries)
    decreases offset - i
  {
    ProgramLogUnits(outcome, k, tries, data, address, i, offset);
    UnitCallsAbove(ProgramLog(outcome, k, tries, data, address, i, offset), data, address, i, offset);
    if i < offset {
      ProgramLogUnfold(outcome, k, tries, data, address, i, offset);
      UnitLogShape(outcome, k, tries, data, address, i, offset);
      var unit := UnitLog(outcome, k, tries, data, address, i);
      if RetriedOk(outcome, k, tries) {
        var rest := ProgramLog(outcome, k + |unit|, tries, data, address, i + DOUBLE_WORD, offset);
        ProgramLogRetries(outcome, k + |unit|, tries, data, address, i + DOUBLE_WORD, offset);
        UnitCallsAbove(rest, data, address, i + DOUBLE_WORD, offset);
        BoundedRetriesAppend(ProgramLog(outcome, k, tries, data, address, i, offset), unit, rest, address + i, tries);
      } else {
        var log := ProgramLog(outcome, k, tries, data, address, i, offset);
        assert log == unit;
        forall j | 0 <= j < |log| - 1 && !log[j].ok ensures log[j + 1].address == log[j].address {
        }
      }
    }
  }

  /** The programming loop does nothing exactly when no unit lies below offset */
  lemma ProgramLogEmpty(outcome: nat -> bool, k: nat, tries: nat, data: seq<byte>, address: int, i: nat, offset: nat)
    requires ProgramInBounds(data, offset) && i % DOUBLE_WORD == 0 && tries > 0
    ensures ProgramLog(outcome, k, tries, data, address, i, offset) == [] <==> i >= offset
  {
    if i < offset {
      ProgramLogUnfold(outcome, k, tries, data, address, i, offset);
      UnitLogLast(outcome, k, tries, data, address, i, offset);
    }
  }

  lemma LastAppend(a: seq<HalCall>, b: seq<HalCall>)
    requires a != []
    ensures Last(a + b) == if b == [] then Last(a) else Last(b)
  {
    if b == [] {
      assert a + b == a;
    }
  }

  /** The programming loop reports success exactly when it had nothing to do or its last call succeeded */
  lemma {:induction false} ProgramLogResult(outcome: nat -> bool, k: nat, tries: nat, data: seq<byte>, address: int, i: nat, offset: nat)
    requires ProgramInBounds(data, offset) && i % DOUBLE_WORD == 0 && tries > 0
    ensures ProgramOk(outcome, k, tries, data, address, i, offset) <==>
      (ProgramLog(outcome, k, tries, data, address, i, offset) == [] || Last(ProgramLog(outcome, k, tries, data, address, i, offset)).ok)
    decreases offset - i
  {
    if i < offset {
      ProgramLogUnfold(outcome, k, tries, data, address, i, offset);
      UnitLogLast(outcome, k, tries, data, address, i, offset);
      var unit := UnitLog(outcome, k, tries, data, address, i);
      var rest := ProgramLog(outcome, k + |unit|, tries, data, address, i + DOUBLE_WORD, offset);
      var restOk := ProgramOk(outcome, k + |unit|, tries, data, address, i + DOUBLE_WORD, offset);
      ProgramLogResult(outcome, k + |unit|, tries, data, address, i + DOUBLE_WORD, offset);
      ResultStep(ProgramOk(outcome, k, tries, data, address, i, offset), restOk,
                 ProgramLog(outcome, k, tries, data, address, i, offset), unit, rest, RetriedOk(outcome, k, tries));
    }
  }

  /** The loop's result from one unit on, given the unit's attempts and the result of the rest */
  lemma ResultStep(ok: bool, restOk: bool, log: seq<HalCall>, unit: seq<HalCall>, rest: seq<HalCall>, unitOk: bool)
    requires unit != [] && (unitOk <==> Last(unit).ok)
    requires unitOk ==> log == unit + rest && ok == restOk
    requires !unitOk ==> log == unit && !ok
    requires restOk <==> (rest == [] || Last(rest).ok)
    ensures ok <==> (log == [] || Last(log).ok)
  {
    LastAppend(unit, rest);
  }

  /** When the programming loop fails, its last `tries` calls failed, all on one unit */
  lemma {:induction false} ProgramLogGaveUp(outcome: nat -> bool, k: nat, tries: nat, data: seq<byte>, address: int, i: nat, offset: nat)
    requires ProgramInBounds(data, offset) && i % DOUBLE_WORD == 0 && tries > 0
    ensures UnitCalls(ProgramLog(outcome, k, tries, data, address, i, offset), data, address, i, offset)
    ensures !ProgramOk(outcome, k, tries, data, address, i, offset) ==> GaveUp(ProgramLog(outcome, k, tries, data, address, i, offset), tries)
    decreases offset - i
  {
    ProgramLogUnits(outcome, k, tries, data, address, i, offset);
    if i < offset && !ProgramOk(outcome, k, tries, data, address, i, offset) {
      ProgramLogUnfold(outcome, k, tries, data, address, i, offset);
      UnitLogShape(outcome, k, tries, data, address, i, offset);
      var unit := UnitLog(outcome, k, tries, data, address, i);
      var log := ProgramLog(outcome, k, tries, data, address, i, offset);
      if RetriedOk(outcome, k, tries) {
        var rest := ProgramLog(outcome, k + |unit|, tries, data, address, i + DOUBLE_WORD, offset);
        ProgramLogGaveUp(outcome, k + |unit|, tries, data, address, i + DOUBLE_WORD, offset);
        UnitCallsAbove(rest, data, address, i + DOUBLE_WORD, offset);
        GaveUpAppend(log, unit, rest, tries);
      } else {
        UnitCallsAbove(log, data, address, i, offset);
      }
    }
  }

  /** Giving up is a property of the tail of the log */
  lemma GaveUpAppend(c: seq<HalCall>, a: seq<HalCall>, b: seq<HalCall>, tries: nat)
    requires c == a + b
    requires forall j :: 0 <= j < |a| ==> a[j].Program?
    requires forall j :: 0 <= j < |b| ==> b[j].Program?
    requires GaveUp(b, tries)
    ensures forall j :: 0 <= j < |c| ==> c[j].Program?
    ensures GaveUp(c, tries)
  {
    forall j | 0 <= j < |c| ensures c[j].Program? {
      if j >= |a| { assert c[j] == b[j - |a|]; }
    }
    forall j | |c| - tries <= j < |c| ensures !c[j].ok && c[j].address == c[|c| - 1].address {
      assert c[j] == b[j - |a|] && c[|c| - 1] == b[|b| - 1];
    }
  }

  /** Program calls at or above `low` leave flash below `low` alone */
  lemma {:induction false} ApplyLogBelow(base: int, pageSize: nat, f: Flash, log: seq<HalCall>, low: int, a: int)
    requires forall j :: 0 <= j < |log| ==> log[j].Program? && low <= log[j].address
    requires a < low
    ensures Read(ApplyLog(base, pageSize, f, log), a) == Read(f, a)
    decreases |log|
  {
    if log != [] {
      var g := ApplyLog(base, pageSize, f, log[..|log| - 1]);
      ApplyLogBelow(base, pageSize, f, log[..|log| - 1], low, a);
      var c := Last(log);
      ReadWriteBytes(g, c.address, c.word, a);
    }
  }

  /** Program calls whose bytes all miss address `a` leave it alone */
  lemma {:induction false} ApplyLogMisses(base: int, pageSize: nat, f: Flash, log: seq<HalCall>, a: int)
    requires forall j :: 0 <= j < |log| ==> log[j].Program? && (a < log[j].address || log[j].address + |log[j].word| <= a)
    ensures Read(ApplyLog(base, pageSize, f, log), a) == Read(f, a)
    decreases |log|
  {
    if log != [] {
      var g := ApplyLog(base, pageSize, f, log[..|log| - 1]);
      ApplyLogMisses(base, pageSize, f, log[..|log| - 1], a);
      var c := Last(log);
      ReadWriteBytes(g, c.address, c.word, a);
    }
  }

  /** A successful unit writes its double-word */
  lemma UnitLogWrites(base: int, pageSize: nat, f: Flash, outcome: nat -> bool, k: nat, tries: nat, data: seq<byte>, address: int, i: nat)
    requires i + DOUBLE_WORD <= |data| && RetriedOk(outcome, k, tries)
    ensures ApplyLog(base, pageSize, f, UnitLog(outcome, k, tries, data, address, i)) == WriteBytes(f, address + i, data[i..i + DOUBLE_WORD])
  {
    ApplyRetried(base, pageSize, f, Program(address + i, data[i..i + DOUBLE_WORD], false), outcome, k, tries);
  }

  /** A word written at p and followed only by program calls above it reads back at p + x */
  lemma ReadAfterWord(base: int, pageSize: nat, f: Flash, word: seq<byte>, p: int, rest: seq<HalCall>, a: int)
    requires forall j :: 0 <= j < |rest| ==> rest[j].Program? && p + |word| <= rest[j].address
    requires p <= a < p + |word|
    ensures Read(ApplyLog(base, pageSize, WriteBytes(f, p, word), rest), a) == word[a - p]
  {
    ReadWriteBytes(f, p, word, a);
    ApplyLogBelow(base, pageSize, WriteBytes(f, p, word), rest, p + |word|, a);
  }

  /** The double-word of the first unit reads back once the first unit succeeded, whatever happens later */
  lemma ProgramLogFirstUnit(base: int, pageSize: nat, f: Flash, outcome: nat -> bool, k: nat, tries: nat,
                            data: seq<byte>, address: int, i: nat, offset: nat, j: nat)
    requires ProgramInBounds(data, offset) && i % DOUBLE_WORD == 0 && tries > 0
    requires i <= j < i + DOUBLE_WORD && i < offset && RetriedOk(outcome, k, tries)
    ensures Read(ApplyLog(base, pageSize, f, ProgramLog(outcome, k, tries, data, address, i, offset)), address + j) == data[j]
  {
    ProgramLogUnfold(outcome, k, tries, data, address, i, offset);
    var unit := UnitLog(outcome, k, tries, data, address, i);
    var rest := ProgramLog(outcome, k + |unit|, tries, data, address, i + DOUBLE_WORD, offset);
    UnitLogWrites(base, pageSize, f, outcome, k, tries, data, address, i);
    ProgramLogUnits(outcome, k + |unit|, tries, data, address, i + DOUBLE_WORD, offset);
    UnitCallsAbove(rest, data, address, i + DOUBLE_WORD, offset);
    ReadAfterUnit(base, pageSize, f, ProgramLog(outcome, k, tries, data, address, i, offset), unit, rest,
                  data[i..i + DOUBLE_WORD], address + i, address + j);
  }

  /** Calls whose effect is to write `word` at p, followed only by program calls above it, leave `word` readable at p */
  lemma ReadAfterUnit(base: int, pageSize: nat, f: Flash, log: seq<HalCall>, unit: seq<HalCall>, rest: seq<HalCall>,
                      word: seq<byte>, p: int, a: int)
    requires log == unit + rest
    requires ApplyLog(base, pageSize, f, unit) == WriteBytes(f, p, word)
    requires forall j :: 0 <= j < |rest| ==> rest[j].Program? && p + |word| <= rest[j].address
    requires p <= a < p + |word|
    ensures Read(ApplyLog(base, pageSize, f, log), a) == word[a - p]
  {
    ApplyLogAppend(base, pageSize, f, unit, rest);
    ReadAfterWord(base, pageSize, f, word, p, rest, a);
  }

  /** After a successful programming run from unit i, flash holds data[j] at address + j for i <= j < offset */
  lemma {:induction false} ProgramLogWrites(base: int, pageSize: nat, f: Flash, outcome: nat -> bool, k: nat, tries: nat,
                                           data: seq<byte>, address: int, i: nat, offset: nat, j: nat)
    requires ProgramInBounds(data, offset) && i % DOUBLE_WORD == 0
    requires ProgramOk(outcome, k, tries, data, address, i, offset)
    requires i <= j < offset
    ensures Read(ApplyLog(base, pageSize, f, ProgramLog(outcome, k, tries, data, address, i, offset)), address + j) == data[j]
    decreases offset - i
  {
    ProgramLogUnfold(outcome, k, tries, data, address, i, offset);
    if j < i + DOUBLE_WORD {
      ProgramLogFirstUnit(base, pageSize, f, outcome, k, tries, data, address, i, offset, j);
    } else {
      var unit := UnitLog(outcome, k, tries, data, address, i);
      var rest := ProgramLog(outcome, k + |unit|, tries, data, address, i + DOUBLE_WORD, offset);
      ApplyLogAppend(base, pageSize, f, unit, rest);
      ProgramLogWrites(base, pageSize, ApplyLog(base, pageSize, f, unit), outcome, k + |unit|, tries, data, address, i + DOUBLE_WORD, offset, j);
    }
  }

  /** Round trip: when Flash reports success, flash holds data[..offset] from `address` on */
  lemma FlashWrites(base: int, pageSize: nat, f: Flash, outcome: nat -> bool, k: nat, tries: nat, data: seq<byte>, address: int, offset: nat)
    requires pageSize > 0 && ProgramInBounds(data, offset)
    requires FlashOk(base, pageSize, outcome, k, tries, data, address, offset)
    ensures ReadBytes(ApplyLog(base, pageSize, f, FlashCalls(base, pageSize, outcome, k, tries, data, address, offset)), address, offset)
            == data[..offset]
  {
    var erase := Retried(Erase(ErasePage(base, pageSize, address), ErasePages(pageSize, offset), false), outcome, k, tries);
    var prog := ProgramLog(outcome, k + |erase|, tries, data, address, 0, offset);
    ApplyLogAppend(base, pageSize, f, erase, prog);
    var f1 := ApplyLog(base, pageSize, f, erase);
    forall j | 0 <= j < offset ensures Read(ApplyLog(base, pageSize, f1, prog), address + j) == data[j] {
      ProgramLogWrites(base, pageSize, f1, outcome, k + |erase|, tries, data, address, 0, offset, j);
    }
  }

  /** Erase requests, failed or not, leave addresses outside the requested pages alone */
  lemma EraseOutside(base: int, pageSize: nat, f: Flash, page: int, pages: int, outcome: nat -> bool, k: nat, tries: nat, a: int)
    requires tries > 0 && !InPages(base, pageSize, page, pages, a)
    ensures Read(ApplyLog(base, pageSize, f, Retried(Erase(page, pages, false), outcome, k, tries)), a) == Read(f, a)
  {
    var call := Erase(page, pages, false);
    RetriedShape(call, outcome, k, tries);
    if RetriedOk(outcome, k, tries) {
      ApplyRetried(base, pageSize, f, call, outcome, k, tries);
    } else {
      ApplyFailed(base, pageSize, f, Retried(call, outcome, k, tries));
    }
  }

  /** The programming loop leaves addresses outside [address, address + |data|) alone */
  lemma ProgramLogMisses(base: int, pageSize: nat, f: Flash, outcome: nat -> bool, k: nat, tries: nat,
                         data: seq<byte>, address: int, i: nat, offset: nat, a: int)
    requires ProgramInBounds(data, offset) && i % DOUBLE_WORD == 0 && tries > 0
    requires a < address || address + |data| <= a
    ensures Read(ApplyLog(base, pageSize, f, ProgramLog(outcome, k, tries, data, address, i, offset)), a) == Read(f, a)
  {
    var prog := ProgramLog(outcome, k, tries, data, address, i, offset);
    ProgramLogUnits(outcome, k, tries, data, address, i, offset);
    forall j | 0 <= j < |prog| ensures prog[j].Program? && (a < prog[j].address || prog[j].address + |prog[j].word| <= a) {
      assert UnitCall(prog[j], data, address, i, offset);
    }
    ApplyLogMisses(base, pageSize, f, prog, a);
  }

  /**
    Frame: Flash changes nothing outside the pages it erases and the bytes
    [address, address + |data|) it may program.
   */
  lemma FlashFrame(base: int, pageSize: nat, f: Flash, outcome: nat -> bool, k: nat, tries: nat, data: seq<byte>, address: int, offset: nat, a: int)
    requires pageSize > 0 && ProgramInBounds(data, offset) && tries > 0
    requires !InPages(base, pageSize, ErasePage(base, pageSize, address), ErasePages(pageSize, offset), a)
    requires a < address || address + |data| <= a
    ensures Read(ApplyLog(base, pageSize, f, FlashCalls(base, pageSize, outcome, k, tries, data, address, offset)), a) == Read(f, a)
  {
    var page, pages := ErasePage(base, pageSize, address), ErasePages(pageSize, offset);
    var erase := Retried(Erase(page, pages, false), outcome, k, tries);
    var calls := FlashCalls(base, pageSize, outcome, k, tries, data, address, offset);
    EraseOutside(base, pageSize, f, page, pages, outcome, k, tries, a);
    if RetriedOk(outcome, k, tries) {
      var prog := ProgramLog(outcome, k + |erase|, tries, data, address, 0, offset);
      ProgramLogMisses(base, pageSize, ApplyLog(base, pageSize, f, erase), outcome, k + |erase|, tries, data, address, 0, offset, a);
      ReadAcross(base, pageSize, f, calls, erase, prog, a);
    }
  }

  /** An address two logs leave alone in turn is left alone by the two together */
  lemma ReadAcross(base: int, pageSize: nat, f: Flash, calls: seq<HalCall>, first: seq<HalCall>, second: seq<HalCall>, a: int)
    requires calls == first + second
    requires Read(ApplyLog(base, pageSize, f, first), a) == Read(f, a)
    requires Read(ApplyLog(base, pageSize, ApplyLog(base, pageSize, f, first), second), a) == Read(ApplyLog(base, pageSize, f, first), a)
    ensures Read(ApplyLog(base, pageSize, f, calls), a) == Read(f, a)
  {
    ApplyLogAppend(base, pageSize, f, first, second);
  }
}
