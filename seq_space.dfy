/**
 * The 32-bit sequence space of a TCP endpoint: `u32` arithmetic that wraps
 * around at 2^32, and the circular comparator `is_between_wrapped` through
 * which every acceptability and acknowledgment test of the connection goes.
 */
module SeqSpace {

  /** 2^32: sequence numbers are counted modulo this. */
  const MODULUS: int := 0x1_0000_0000

  type u32 = x: int | 0 <= x < 0x1_0000_0000
  type u16 = x: int | 0 <= x < 0x1_0000
  type byte = x: int | 0 <= x < 0x100

  /** `a.wrapping_add(b)` for a `u32` a. */
  function WrappingAdd(a: u32, b: nat): u32
  {
    (a + b) % MODULUS
  }

  /** `a.wrapping_sub(b)` for a `u32` a. */
  function WrappingSub(a: u32, b: nat): u32
  {
    (a - b) % MODULUS
  }

  /** Two wrapping additions are one. */
  lemma WrappingAddTwice(a: u32, k: nat, j: nat)
    ensures WrappingAdd(WrappingAdd(a, k), j) == WrappingAdd(a, k + j)
  {
  }

  /** How many steps forward around the circle lead from `a` to `b`. */
  function Dist(a: u32, b: u32): (d: u32)
    ensures d == if a <= b then b - a else b - a + MODULUS
    ensures WrappingAdd(a, d) == b
  {
    (b - a) % MODULUS
  }

  /**
   * `is_between_wrapped(start, x, end)`: does `x` lie strictly inside the
   * circular interval that runs forward from `start` to `end`?  The body
   * follows the three-way comparison of `start` with `x`; the contract is
   * what that comparison amounts to on the circle.
   */
  function IsBetweenWrapped(start: u32, x: u32, end: u32): (r: bool)
    ensures r <==> 0 < Dist(start, x) < Dist(start, end)
  {
    if start == x then
      false
    else if start < x then
      // `end` must not fall in the span [start, x] already passed
      !(end >= start && end <= x)
    else
      // `x` has wrapped past zero: `end` must fall strictly in the gap (x, start)
      end > x && end < start
  }

  /** Concrete values, among them the one where the wrapped `x` is not inside. */
  lemma IsBetweenWrappedExamples()
    ensures !IsBetweenWrapped(0xFFFF_FFFE, 1, 0xFFFF_FFFF)
    ensures !IsBetweenWrapped(10, 20, 15)
    ensures IsBetweenWrapped(0xFFFF_FFFE, 1, 2)
    ensures forall x: u32, e: u32 :: !IsBetweenWrapped(x, x, e)
  {
  }

  /** Stepping the start of a distance back by one lengthens it by one, modulo 2^32. */
  lemma DistFromPredecessor(a: u32, b: u32)
    ensures Dist(WrappingSub(a, 1), b) == if Dist(a, b) == MODULUS - 1 then 0 else Dist(a, b) + 1
  {
  }

  /** Moving the end of a distance forward by `k` lengthens it by `k`, modulo 2^32. */
  lemma DistToSuccessor(a: u32, b: u32, k: nat)
    requires Dist(a, b) + k < MODULUS
    ensures Dist(a, WrappingAdd(b, k)) == Dist(a, b) + k
  {
  }

  /** Adding `k` moves `k` steps forward, modulo 2^32. */
  lemma DistOfAdd(a: u32, k: nat)
    ensures Dist(a, WrappingAdd(a, k)) == k % MODULUS
  {
  }

  /**
   * The receive-window test of section 3.3 of RFC 793, RCV.NXT =< s <
   * RCV.NXT + RCV.WND, written with the strict comparator from `nxt - 1` to
   * `nxt + wnd`: for a non-empty window it holds exactly when `s` lies fewer
   * than `wnd` steps ahead of `nxt`.
   */
  lemma ReceiveWindowTest(nxt: u32, wnd: u16, s: u32)
    requires 0 < wnd
    ensures IsBetweenWrapped(WrappingSub(nxt, 1), s, WrappingAdd(nxt, wnd)) <==> Dist(nxt, s) < wnd
  {
    DistFromPredecessor(nxt, s);
    DistFromPredecessor(nxt, WrappingAdd(nxt, wnd));
    DistToSuccessor(nxt, nxt, wnd);
  }

  /**
   * The acknowledgment test SND.UNA < SEG.ACK =< SND.NXT, written with the
   * strict comparator from `una` to `nxt + 1`: it holds exactly when `ack`
   * lies ahead of `una` by at least one and at most as far as `nxt` does.
   */
  lemma AckWindowTest(una: u32, nxt: u32, ack: u32)
    requires Dist(una, nxt) < MODULUS - 1
    ensures IsBetweenWrapped(una, ack, WrappingAdd(nxt, 1)) <==> 0 < Dist(una, ack) <= Dist(una, nxt)
  {
    DistToSuccessor(una, nxt, 1);
  }

  /**
   * The inclusive test SND.UNA =< SEG.ACK =< SND.NXT, written with the strict
   * comparator from `una - 1` to `nxt + 1`.
   */
  lemma InclusiveAckWindowTest(una: u32, nxt: u32, ack: u32)
    requires Dist(una, nxt) < MODULUS - 2
    ensures IsBetweenWrapped(WrappingSub(una, 1), ack, WrappingAdd(nxt, 1)) <==> Dist(una, ack) <= Dist(una, nxt)
  {
    DistFromPredecessor(una, ack);
    DistFromPredecessor(una, WrappingAdd(nxt, 1));
    DistToSuccessor(una, nxt, 1);
  }
}
