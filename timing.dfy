/**
 * The options record of the view and the per-tick delay it yields.
 * Delays are Kotlin `Long` (64-bit, two's complement) and the wobble amplitude is a Kotlin `Int`.
 * The random offset is whatever the helper returns, converted by `.toLong()`, so it is a `Long`.
 */
module Timing {

  const MinLong: int := -0x8000_0000_0000_0000
  const MaxLong: int := 0x7FFF_FFFF_FFFF_FFFF
  const LongModulus: int := 0x1_0000_0000_0000_0000

  type Long = x: int | -0x8000_0000_0000_0000 <= x <= 0x7FFF_FFFF_FFFF_FFFF
  type Int32 = x: int | -0x8000_0000 <= x <= 0x7FFF_FFFF

  const DefaultTypingDelay: Long := 120
  const DefaultEraseDelay: Long := 30
  const DefaultRandomWobble: Int32 := 100
  const DefaultEnableRandomWobble: bool := false

  /** The immutable options record; a change builds a new record (Kotlin `copy`). */
  datatype Attrs = Attrs(typingDelay: Long, eraseDelay: Long, randomWobble: Int32, enableRandomWobble: bool)

  /** `Attrs()` with every parameter left at its default. */
  function DefaultAttrs(): (a: Attrs)
    ensures a.typingDelay == 120 && a.eraseDelay == 30
    ensures a.randomWobble == 100 && !a.enableRandomWobble
  {
    Attrs(DefaultTypingDelay, DefaultEraseDelay, DefaultRandomWobble, DefaultEnableRandomWobble)
  }

  /** `options.copy(typingDelay = delay)`: only the typing delay changes. */
  function WithTypingDelay(a: Attrs, delay: Long): (r: Attrs)
    ensures r.typingDelay == delay
    ensures r.eraseDelay == a.eraseDelay && r.randomWobble == a.randomWobble
    ensures r.enableRandomWobble == a.enableRandomWobble
  {
    a.(typingDelay := delay)
  }

  /** `options.copy(eraseDelay = delay)`: only the erase delay changes. */
  function WithEraseDelay(a: Attrs, delay: Long): (r: Attrs)
    ensures r.eraseDelay == delay
    ensures r.typingDelay == a.typingDelay && r.randomWobble == a.randomWobble
    ensures r.enableRandomWobble == a.enableRandomWobble
  {
    a.(eraseDelay := delay)
  }

  datatype Action = Erase | Type

  /** Kotlin `Long` addition: the mathematical result wrapped into 64 bits. */
  function WrapLong(x: int): (r: Long)
    ensures MinLong <= x <= MaxLong ==> r == x
    ensures (r - x) % LongModulus == 0
  {
    (x - MinLong) % LongModulus + MinLong
  }

  /**
   * The delay before the next tick. `offset` stands for the value the random helper
   * returns for this tick; no clamping is applied, so the result may be negative.
   */
  function GetDelay(a: Attrs, action: Action, offset: Long): (r: Long)
    ensures !a.enableRandomWobble && action == Erase ==> r == a.eraseDelay
    ensures !a.enableRandomWobble && action == Type ==> r == a.typingDelay
    ensures a.enableRandomWobble && action == Erase && MinLong <= a.eraseDelay + offset <= MaxLong
            ==> r == a.eraseDelay + offset
    ensures a.enableRandomWobble && action == Type && MinLong <= a.typingDelay + offset <= MaxLong
            ==> r == a.typingDelay + offset
    ensures a.enableRandomWobble ==>
              (r - offset - (if action == Erase then a.eraseDelay else a.typingDelay)) % LongModulus == 0
  {
    var startingDelay := match action
      case Erase => a.eraseDelay
      case Type => a.typingDelay;
    if !a.enableRandomWobble then startingDelay else WrapLong(startingDelay + offset)
  }

  /**
   * The amplitude reaches the delay only as the random helper's argument. With the helper's
   * result taken as the input `offset`, the amplitude has no further effect on the delay.
   */
  lemma DelayIgnoresAmplitude(a: Attrs, w: Int32, action: Action, offset: Long)
    ensures GetDelay(a.(randomWobble := w), action, offset) == GetDelay(a, action, offset)
  {
  }

  /** No clamping: with the defaults and wobble on, an offset of -100 gives an erase delay of -70. */
  lemma DelayIsNotClamped()
    ensures GetDelay(DefaultAttrs().(enableRandomWobble := true), Erase, -100) == -70
  {
  }

  /** Setting one delay leaves the other action's delay as it was (a consequence of the setters' contracts). */
  lemma SettersAreIndependent(a: Attrs, d: Long, offset: Long)
    ensures GetDelay(WithTypingDelay(a, d), Erase, offset) == GetDelay(a, Erase, offset)
    ensures GetDelay(WithEraseDelay(a, d), Type, offset) == GetDelay(a, Type, offset)
  {
  }
}
