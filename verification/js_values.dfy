/** The JavaScript values both focus timers compute with.

    In this model the timers hold integer numbers of milliseconds or seconds
    (the source's fractional focus hours and the rounding of its hours presets
    are left out), except that `parseInt` on an input field can yield NaN,
    which then flows through `+`, `*` and `Math.max` and makes every
    comparison false. `Num` stands for
    such a number: an integer or NaN. JavaScript numbers are doubles, so the
    model holds for integers below 2^53 in magnitude; `Infinity`, which
    `parseInt` gives for a numeral of about 309 digits or more, and the
    rounding of larger integers are outside it. */
module JsValues {

  datatype Option<T> = None | Some(value: T)

  /** A JavaScript number as the timers can hold it: an integer or NaN. */
  datatype Num = Finite(value: int) | NaN

  /** The text of an input field as `parseInt` reads it: the empty string, a
      non-empty text that `parseInt` reads as NaN, or a text it reads as `n`. */
  datatype FieldValue = Blank | NonNumeric | Numeral(n: int)

  /** An instant of `Date.now()`: milliseconds since the epoch, always positive,
      so the truthiness test `!this.startTime` is exactly a test for null. */
  type Instant = t: int | 0 < t witness 1

  /** `parseInt(field.value)`. */
  function ParseInt(f: FieldValue): (r: Num)
    ensures r.Finite? <==> f.Numeral?
    ensures f.Numeral? ==> r.value == f.n
  {
    match f
    case Numeral(n) => Finite(n)
    case _ => NaN
  }

  /** `x || d` on a number: 0 and NaN are falsy and give `d`. */
  function OrDefault(x: Num, d: int): (r: int)
    ensures x.Finite? && x.value != 0 ==> r == x.value
    ensures x == NaN || x == Finite(0) ==> r == d
  {
    if x.Finite? && x.value != 0 then x.value else d
  }

  /** `a + b`; NaN if either operand is NaN. */
  function Plus(a: Num, b: Num): (r: Num)
    ensures r.Finite? <==> a.Finite? && b.Finite?
    ensures r.Finite? ==> r.value == a.value + b.value
  {
    if a.Finite? && b.Finite? then Finite(a.value + b.value) else NaN
  }

  /** `a * k` for an integer constant `k`. */
  function Times(a: Num, k: int): (r: Num)
    ensures r.Finite? <==> a.Finite?
    ensures r.Finite? ==> r.value == a.value * k
  {
    if a.Finite? then Finite(a.value * k) else NaN
  }

  /** `Math.max(0, a)`: NaN stays NaN, anything else is at least 0. */
  function Max0(a: Num): (r: Num)
    ensures r.Finite? <==> a.Finite?
    ensures r.Finite? ==> r.value >= 0 && r.value >= a.value
    ensures r.Finite? && a.value >= 0 ==> r.value == a.value
    ensures r.Finite? && a.value <= 0 ==> r.value == 0
  {
    if a.NaN? then NaN else if a.value < 0 then Finite(0) else a
  }

  /** `a <= 0`, false for NaN. */
  predicate AtMostZero(a: Num) {
    a.Finite? && a.value <= 0
  }

  /** `a > 0`, false for NaN. */
  predicate Positive(a: Num) {
    a.Finite? && a.value > 0
  }

  /** `Math.ceil(ms / 1000)`: the whole seconds that cover `ms` milliseconds. */
  function CeilSeconds(ms: int): (s: int)
    ensures (s - 1) * 1000 < ms <= s * 1000
  {
    -((-ms) / 1000)
  }

  /** `Math.floor(total / 60)`: Dafny's division by a positive constant floors. */
  function FloorMinutes(total: int): (m: int)
    ensures m * 60 <= total < (m + 1) * 60
  {
    total / 60
  }

  /** `total % 60` in JavaScript: the remainder takes the sign of `total`. */
  function JsRemainder60(total: int): (r: int)
    ensures total >= 0 ==> 0 <= r < 60 && (total - r) % 60 == 0
    ensures total < 0 ==> -60 < r <= 0 && (total - r) % 60 == 0
  {
    if total >= 0 then total % 60 else -((-total) % 60)
  }
}
