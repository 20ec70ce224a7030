/**
 Permission bits, as far as the chmod plan looks at them.
 */
module Modes {
  type Mode = bv12

  const WRITABLE: Mode := 0x12  // 0o022
  const STICKY: Mode := 0x200   // 0o1000

  predicate Exposed(m: Mode) { m & WRITABLE != 0 }

  function Closed(m: Mode): Mode { m & !WRITABLE }

  /** Bit by bit: 0o020 and 0o002 are the write bits of group and others. */
  lemma ExposedBits(m: Mode)
    ensures Exposed(m) <==> m & 0x10 != 0 || m & 0x02 != 0
  {
  }

  /** Both write bits are clear, every other bit is as before, and a mode without them is unchanged. */
  predicate WriteTaken(before: Mode, after: Mode)
  {
    && after & 0x10 == 0 && after & 0x02 == 0 && after & 0xFED == before & 0xFED
    && (before & 0x10 == 0 && before & 0x02 == 0 ==> after == before)
  }

  lemma ClosedBits(m: Mode)
    ensures WriteTaken(m, Closed(m)) && (!Exposed(m) ==> WriteTaken(m, m))
    ensures Closed(m) == m & 0xFED
  {
  }

  lemma ClosedMode(m: Mode)
    ensures !Exposed(Closed(m))
    ensures !Exposed(m) ==> Closed(m) == m
    ensures Closed(m) & STICKY == m & STICKY
  {
  }
}
