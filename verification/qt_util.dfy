/**
 * QtUtil: the one helper the input layer shares, keyToken, which packs a keyboard key or a mouse
 * button into a single 64-bit integer so that both can be compared and hashed alike.
 */
module QtUtil {
  import opened Wrappers

  /** std::variant<Qt::Key, Qt::MouseButton>: a key or a mouse button, by its enum value. */
  datatype Input = Key(code: nat) | Button(code: nat)

  /** Qt::Key_Space. */
  const SpaceKey: nat := 0x20
  /** Qt::LeftButton, Qt::RightButton and Qt::MiddleButton. */
  const LeftButton: nat := 0x1
  const RightButton: nat := 0x2
  const MiddleButton: nat := 0x4

  /** 2^32: the weight of the high half of a token. */
  const Half: nat := 0x1_0000_0000

  /** Every Qt::Key and Qt::MouseButton value fits in 32 bits. */
  predicate InRange(v: Input)
  {
    v.code < Half
  }

  /** variant::index(): 0 for a key, 1 for a mouse button. */
  function Index(v: Input): (i: nat)
    ensures i < 2
  {
    match v
    case Key(_) => 0
    case Button(_) => 1
  }

  /**
   * keyToken: (index << 32) | (value & 0xffffffff). The two operands of the or have no bit in
   * common, so the or is their sum (ShiftOrIsSum); masking keeps the value modulo 2^32, whatever the
   * 64-bit conversion before it did.
   */
  function KeyToken(v: Input): (t: nat)
    ensures t < Half * Half
    ensures t / Half == Index(v) && t % Half == v.code % Half
  {
    Index(v) * Half + v.code % Half
  }

  /** For an index below 2 and a masked value, shift-then-or is multiply-then-add. */
  lemma ShiftOrIsSum(kind: bv64, value: bv64)
    requires kind < 2
    ensures (kind << 32) | (value & 0xffff_ffff) == kind * 0x1_0000_0000 + (value & 0xffff_ffff)
  {
  }

  /** The input a token stands for: the alternative from the high half, the value from the low half. */
  function TokenInput(t: nat): (r: Option<Input>)
    ensures r.Some? ==> InRange(r.value) && KeyToken(r.value) == t
  {
    if t / Half == 0 then Some(Key(t % Half))
    else if t / Half == 1 then Some(Button(t % Half))
    else None
  }

  /** Decoding a token gives back the input it was made from, for every input Qt can produce. */
  lemma TokenRoundTrip(v: Input)
    requires InRange(v)
    ensures TokenInput(KeyToken(v)) == Some(v)
  {
  }

  /** A key token never equals a mouse-button token, whatever the two values. */
  lemma KeyNeverButton(k: nat, b: nat)
    ensures KeyToken(Key(k)) != KeyToken(Button(b))
  {
  }

  /** For values below 2^32, two tokens are equal exactly when the inputs are. */
  lemma TokenInjective(u: Input, v: Input)
    requires InRange(u) && InRange(v)
    ensures KeyToken(u) == KeyToken(v) <==> u == v
  {
    if KeyToken(u) == KeyToken(v) {
      TokenRoundTrip(u);
      TokenRoundTrip(v);
    }
  }
}
