/** ECMAScript numbers restricted to integers, and the bitwise operators' conversions. */
module JsNumber {
  import opened Word

  const MAX_SAFE: int := 0x1F_FFFF_FFFF_FFFF

  /** The integers a double represents exactly; arithmetic that stays inside never rounds. */
  type Number = x: int | -0x1F_FFFF_FFFF_FFFF <= x <= 0x1F_FFFF_FFFF_FFFF
  type Int32 = x: int | -0x8000_0000 <= x < 0x8000_0000

  function ToUint32(x: int): word { x % TWO32 }

  function ToInt32(x: int): (r: Int32)
    ensures ToUint32(r) == ToUint32(x)
  {
    var u := ToUint32(x);
    if u < 0x8000_0000 then u else u - TWO32
  }

  function Plus(x: Number, y: Number): Number
    requires -MAX_SAFE <= x + y <= MAX_SAFE
  {
    x + y
  }

  function BitAnd(x: Number, y: Number): (r: Int32)
    ensures ToUint32(r) == And(ToUint32(x), ToUint32(y))
  {
    hide And, ToInt32;
    ToInt32(And(ToUint32(x), ToUint32(y)))
  }

  function BitOr(x: Number, y: Number): (r: Int32)
    ensures ToUint32(r) == Or(ToUint32(x), ToUint32(y))
  {
    hide Or, ToInt32;
    ToInt32(Or(ToUint32(x), ToUint32(y)))
  }

  function BitXor(x: Number, y: Number): (r: Int32)
    ensures ToUint32(r) == Xor(ToUint32(x), ToUint32(y))
  {
    hide Xor, ToInt32;
    ToInt32(Xor(ToUint32(x), ToUint32(y)))
  }

  function BitNot(x: Number): (r: Int32)
    ensures ToUint32(r) == Not(ToUint32(x))
  {
    ToInt32(Not(ToUint32(x)))
  }

  /** `x << n` */
  function ShiftLeft(x: Number, n: nat): (r: Int32)
    ensures ToUint32(r) == Shl(ToUint32(x), n)
  {
    ToInt32(Shl(ToUint32(x), n))
  }

  /** `x >> n`: an arithmetic shift of the signed value, one halving at a time. */
  function ShiftRight(x: Number, n: nat): Int32 { Halve(ToInt32(x), n) }

  function Halve(x: Int32, n: nat): Int32
    decreases n
  {
    if n == 0 then x else Halve(x / 2, n - 1)
  }

  /** `x >>> n` */
  function ShiftRightUnsigned(x: Number, n: nat): (r: word)
    ensures ToUint32(r) == Shr(ToUint32(x), n)
  {
    Shr(ToUint32(x), n)
  }

  lemma PlusIsAdd(x: int, y: int)
    ensures ToUint32(x + y) == Add(ToUint32(x), ToUint32(y))
  {
  }
}
