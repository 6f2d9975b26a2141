/**
  The UART link and the tick, as the bootloader sees them through
  HAL_UART_Receive, HAL_UART_Transmit and HAL_GetTick.

  The host's side is a finite list of answers, one per receive call; once
  it is used up the line stays silent and every receive times out after
  UART_TIMEOUT ticks. The outcome of transmit number j is txOutcome(j).
 */
module Uart {
  import opened Bytes

  /**
    The answer to one HAL_UART_Receive call: `data` arrived (the call
    succeeds when it is exactly as long as asked for), or the call timed out.
    `elapsed` is the number of ticks the call took.
   */
  datatype RxEvent = Got(data: seq<byte>, elapsed: nat) | Silent(elapsed: nat)

  /** The answers still to come, HAL_GetTick(), and every message handed to HAL_UART_Transmit, in order */
  datatype Line = Line(rx: seq<RxEvent>, clock: nat, sent: seq<seq<byte>>)

  datatype Reception = Reception(ok: bool, data: seq<byte>, line: Line)

  /** HAL_UART_Receive of n bytes */
  function Receive(l: Line, n: nat): (r: Reception)
    ensures r.ok ==> |r.data| == n
    ensures r.line.sent == l.sent && r.line.clock >= l.clock
    ensures l.rx != [] ==> r.line.rx == l.rx[1..]
    ensures l.rx == [] ==> !r.ok && r.line == Line([], l.clock + UART_TIMEOUT, l.sent)
  {
    if l.rx == [] then Reception(false, [], Line([], l.clock + UART_TIMEOUT, l.sent))
    else
      var e := l.rx[0];
      var next := Line(l.rx[1..], l.clock + e.elapsed, l.sent);
      if e.Got? && |e.data| == n then Reception(true, e.data, next) else Reception(false, [], next)
  }

  datatype Transmission = Transmission(ok: bool, line: Line)

  /** HAL_UART_Transmit of `data` */
  function Transmit(l: Line, data: seq<byte>, txOutcome: nat -> bool): (r: Transmission)
    ensures r.line.rx == l.rx && r.line.clock == l.clock && r.line.sent == l.sent + [data]
    ensures r.ok == txOutcome(|l.sent|)
  {
    Transmission(txOutcome(|l.sent|), Line(l.rx, l.clock, l.sent + [data]))
  }

  /**
    The loops' measure: the ticks left before `deadline`. Every pass of a
    polling loop either uses up an answer or, on a silent line, spends
    UART_TIMEOUT ticks.
   */
  function TicksLeft(l: Line, deadline: nat): nat {
    if l.clock < deadline then deadline - l.clock else 0
  }
}
