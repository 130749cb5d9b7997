/**
  The per-field type coercion of query.go: `valForKind` turns one query
  string into a value of the field's type, and `setValue` wraps its failure.
 */
module Coerce {
  import opened Results
  import opened Values
  import opened Strconv

  /**
    `strconv.ParseFloat(text, 32 or 64)` taken as given: the IEEE bit pattern
    of the parsed float (single precision when the flag is set), or the
    strconv failure. Floating-point parsing is not modelled.
   */
  type FloatParser = (string, bool) -> Result<nat, NumCause>

  /** The kinds `valForKind` can produce a value of, through any number of pointers. */
  predicate Coercible(k: Kind)
  {
    var b := BaseKind(k);
    b.Bool? || b.Int? || b.Uint? || b.F32? || b.F64? || b.Str?
  }

  /**
    `valForKind`: the value `text` denotes in type `k`. A pointer type coerces
    its element type and boxes the result in a fresh pointer; integers are
    read as base-0 literals checked against the kind's width; strings pass
    through; any kind it has no case for is `Unsupported`, reporting the
    innermost kind reached.
   */
  function ValForKind(text: string, k: Kind, parseFloat: FloatParser): (r: Result<Value, Error>)
    ensures r.Ok? ==> HasKind(r.value, k)
    ensures !Coercible(k) <==> r == Err(Unsupported(BaseKind(k)))
    ensures Coercible(k) && r.Err? ==> r.error.NumError?
    ensures k.Int? ==>
      (r.Ok? <==> SignedLiteral(text).Some? && InSignedRange(SignedLiteral(text).value, Bits(k.w)))
    ensures k.Int? && r.Ok? ==> r.value == IntV(SignedLiteral(text).value)
    ensures k.Uint? ==>
      (r.Ok? <==> UnsignedLiteral(text).Some? && InUnsignedRange(UnsignedLiteral(text).value, Bits(k.w)))
    ensures k.Uint? && r.Ok? ==> r.value == IntV(UnsignedLiteral(text).value)
    ensures k.Str? ==> r == Ok(StrV(text))
    ensures k.Bool? ==> (r.Ok? <==> ParseBool(text).Ok?)
    ensures k.Bool? && r.Ok? ==> r.value == BoolV(ParseBool(text).value)
    ensures k.F32? ==> (r.Ok? <==> parseFloat(text, true).Ok?)
    ensures k.F32? && r.Ok? ==> r.value == FloatV(parseFloat(text, true).value)
    ensures k.F64? ==> (r.Ok? <==> parseFloat(text, false).Ok?)
    ensures k.F64? && r.Ok? ==> r.value == FloatV(parseFloat(text, false).value)
  {
    match k
    case Ptr(e) =>
      (match ValForKind(text, e, parseFloat)
       case Ok(v) => Ok(PtrV(Some(v)))
       case Err(err) => Err(err))
    case Bool =>
      (match ParseBool(text)
       case Ok(b) => Ok(BoolV(b))
       case Err(c) => Err(NumError(c)))
    case Int(w) =>
      (match ParseInt(text, Bits(w))
       case Ok(i) => Ok(IntV(i))
       case Err(c) => Err(NumError(c)))
    case Uint(w) =>
      (match ParseUint(text, Bits(w))
       case Ok(n) => Ok(IntV(n))
       case Err(c) => Err(NumError(c)))
    case F64 =>
      (match parseFloat(text, false)
       case Ok(bits) => Ok(FloatV(bits))
       case Err(c) => Err(NumError(c)))
    case F32 =>
      (match parseFloat(text, true)
       case Ok(bits) => Ok(FloatV(bits))
       case Err(c) => Err(NumError(c)))
    case Str => Ok(StrV(text))
    case _ => Err(Unsupported(k))
  }

  /**
    A pointer type of any depth coerces exactly as its base kind does, the
    value boxed once per pointer level; the error, if any, is the base kind's.
   */
  lemma {:induction false} PointerCoercion(text: string, n: nat, k: Kind, parseFloat: FloatParser)
    ensures var inner := ValForKind(text, k, parseFloat);
            ValForKind(text, PointerTo(n, k), parseFloat) ==
              (if inner.Ok? then Ok(Boxed(n, inner.value)) else inner)
  {
    if n > 0 {
      PointerCoercion(text, n - 1, k, parseFloat);
    }
  }

  /**
    `setValue`: the coerced value to store in the field, or the coercion
    failure wrapped as "failed to set value". The value stored is exactly the
    one `valForKind` produced.
   */
  function SetValue(text: string, k: Kind, parseFloat: FloatParser): (r: Result<Value, Error>)
    ensures r.Ok? ==> HasKind(r.value, k)
    ensures r.Ok? <==> ValForKind(text, k, parseFloat).Ok?
    ensures r.Ok? ==> r.value == ValForKind(text, k, parseFloat).value
    ensures r.Err? ==> r.error == SetFailed(ValForKind(text, k, parseFloat).error)
  {
    match ValForKind(text, k, parseFloat)
    case Ok(v) => Ok(v)
    case Err(e) => Err(SetFailed(e))
  }
}
