/** The compile-time choice of the integer type that indexes a container
    of capacity `v` (src/datatypes/init.h), and the two older selectors of
    include/datatypes/Queue.h and include/datatypes/Stack.h. The capacity
    is the template's `unsigned int`, taken as 32 bits wide as on the SAMD
    and STM32 ports; on AVR it is 16 bits wide. */
module IndexType {
  import opened Machine

  datatype Width = W8 | W16 | W32
  {
    /** The largest value of the unsigned type. */
    function Max(): nat
    {
      match this
      case W8 => 0xFF
      case W16 => 0xFFFF
      case W32 => 0xFFFF_FFFF
    }

    function Bits(): nat
    {
      match this
      case W8 => 8
      case W16 => 16
      case W32 => 32
    }
  }

  /** `Index<FITS8, FITS16>::Type`: the primary template is `uint32_t`;
      `<false, true>` is `uint16_t`; `<true, true>` is `uint8_t`. */
  function Select(fits8: bool, fits16: bool): Width
  {
    if fits8 && fits16 then W8
    else if fits16 then W16
    else W32
  }

  /** `__IT_TYPE__(v)`: `Index<(v < UINT8_MAX-1), (v < UINT16_MAX-1)>`. */
  function IndexWidth(v: uint32): Width
  {
    Select(v < 0xFF - 1, v < 0xFFFF - 1)
  }

  /** The three ranges of capacities and their types; the pair
      `(true, false)` never occurs, so the primary template is reached
      only by capacities of at least 65534. */
  lemma IndexWidthRanges(v: uint32)
    ensures IndexWidth(v) == W8 <==> v < 254
    ensures IndexWidth(v) == W16 <==> 254 <= v < 65534
    ensures IndexWidth(v) == W32 <==> 65534 <= v
    ensures !(v < 0xFF - 1 && !(v < 0xFFFF - 1))
  {
  }

  /** The chosen type holds the capacity itself, so indices and counts up
      to the capacity fit. */
  lemma IndexWidthFits(v: uint32)
    ensures v <= IndexWidth(v).Max()
  {
  }

  /** A larger capacity never gets a narrower type. */
  lemma IndexWidthMonotone(v1: uint32, v2: uint32)
    requires v1 <= v2
    ensures IndexWidth(v1).Bits() <= IndexWidth(v2).Bits()
  {
  }

  /** `__Queue_IT_TYPE__` of include/datatypes/Queue.h: the second flag is
      the constant `1 < UINT16_MAX-1`. */
  function QueueIndexWidth(i: uint32): Width
  {
    Select(i < 0xFF - 1, 1 < 0xFFFF - 1)
  }

  /** The index type of include/datatypes/Stack.h: flags `i < UINT8_MAX`
      and the constant `1 < UINT16_MAX`. */
  function StackIndexWidth(i: uint32): Width
  {
    Select(i < 0xFF, 1 < 0xFFFF)
  }

  /** The older queue selector picks 8 bits below 254 and 16 bits from
      there on; the older stack selector the same with the bound 255. */
  lemma OlderSelectorsRanges(i: uint32)
    ensures QueueIndexWidth(i) == W8 <==> i < 254
    ensures QueueIndexWidth(i) == W16 <==> 254 <= i
    ensures StackIndexWidth(i) == W8 <==> i < 255
    ensures StackIndexWidth(i) == W16 <==> 255 <= i
  {
  }

  /** The older selectors never choose 32 bits: a capacity above 65535
      does not fit in the type they choose. */
  lemma OlderSelectorsOverflow(i: uint32)
    requires i > 0xFFFF
    ensures QueueIndexWidth(i) == W16 && i > QueueIndexWidth(i).Max()
    ensures StackIndexWidth(i) == W16 && i > StackIndexWidth(i).Max()
  {
  }

  /** With a 16-bit `unsigned int`, as on AVR, no capacity exceeds 65535
      and the older selectors always choose a type that holds it. */
  lemma OlderSelectorsFitSixteenBit(i: uint32)
    requires i <= 0xFFFF
    ensures i <= QueueIndexWidth(i).Max() && i <= StackIndexWidth(i).Max()
  {
  }

  /** For example a capacity of 70000, which needs a 32-bit
      `unsigned int`. */
  lemma OlderSelectorsCounterexample()
    ensures QueueIndexWidth(70000).Max() < 70000
    ensures StackIndexWidth(70000).Max() < 70000
    ensures IndexWidth(70000) == W32
  {
  }
}
