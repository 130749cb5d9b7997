/**
  The part of Go's type system that the query binder sees through reflection,
  written out as data: a `Kind` is a field's static type, a `Value` is what a
  field holds, and a struct type lists its fields with their `query` tags.
 */
module Values {
  import opened Results

  /** Bit width of an integer kind. Go's plain `int`/`uint` are taken to be 64 bits. */
  datatype Width = W8 | W16 | W32 | W64 | WNative

  function Bits(w: Width): (n: nat)
    ensures n in {8, 16, 32, 64}
  {
    match w
    case W8 => 8
    case W16 => 16
    case W32 => 32
    case W64 => 64
    case WNative => 64
  }

  /**
    A Go type, reduced to what the binder distinguishes.
    - `Composite`: slice, array, chan, func and interface kinds, which the
      encoder skips and the decoder cannot coerce into.
    - `Opaque`: map, uintptr and unsafe-pointer kinds, which the decoder cannot
      coerce into but the encoder does NOT skip (they are written with their `%v` text).
   */
  datatype Kind =
    | Bool
    | Int(w: Width)
    | Uint(w: Width)
    | F32
    | F64
    | Complex
    | Str
    | Ptr(elem: Kind)
    | Struct(fields: seq<FieldDecl>)
    | Composite
    | Opaque

  /**
    One struct field as reflection reports it: the value of its `query` tag
    ("" when the tag is absent, as `StructTag.Get` returns), whether the field is
    exported (settable through reflection), and its type.
   */
  datatype FieldDecl = FieldDecl(tag: string, exported: bool, kind: Kind)

  /**
    A runtime value. Floats are kept as their IEEE bit pattern, because that
    is what reflection's zero test inspects. `OtherV` stands for a value of a
    complex, composite or opaque kind: the binder only ever asks whether it is
    the zero value and, for opaque kinds, what `%v` prints for it.
   */
  datatype Value =
    | BoolV(b: bool)
    | IntV(i: int)
    | FloatV(bits: nat)
    | StrV(s: string)
    | PtrV(target: Option<Value>)
    | StructV(fields: seq<Value>)
    | OtherV(text: string, zero: bool)

  /** An `interface{}` argument of the binder: Go's nil interface, or a value of some type. */
  datatype Arg = NilArg | Arg(kind: Kind, value: Value)

  /** The error values of the binder (errors.go) plus the strconv failure they wrap. */
  datatype NumCause = ErrSyntax | ErrRange

  datatype Error =
    | NonPointer
    | Unsupported(kind: Kind)
    | NumError(cause: NumCause)
    | SetFailed(inner: Error)

  /** A field tag that binds the field to a key: neither absent nor the sentinel "-". */
  predicate Bound(tag: string)
  {
    tag != "" && tag != "-"
  }

  function Pow2(n: nat): (p: nat)
    ensures p >= 1
  {
    if n == 0 then 1 else 2 * Pow2(n - 1)
  }

  /** The integers a signed Go integer of `bits` bits can hold. */
  predicate InSignedRange(i: int, bits: nat)
    requires bits >= 1
  {
    0 - Pow2(bits - 1) <= i < Pow2(bits - 1)
  }

  /** The integers an unsigned Go integer of `bits` bits can hold. */
  predicate InUnsignedRange(i: int, bits: nat)
  {
    0 <= i < Pow2(bits)
  }

  /** `v` is a value of type `k`; for a struct, field by field. */
  predicate HasKind(v: Value, k: Kind)
  {
    match k
    case Bool => v.BoolV?
    case Int(w) => v.IntV? && InSignedRange(v.i, Bits(w))
    case Uint(w) => v.IntV? && InUnsignedRange(v.i, Bits(w))
    case F32 => v.FloatV?
    case F64 => v.FloatV?
    case Str => v.StrV?
    case Ptr(e) => v.PtrV? && (v.target.Some? ==> HasKind(v.target.value, e))
    case Struct(fs) => v.StructV? && FieldsHaveKinds(v.fields, fs)
    case Complex => v.OtherV?
    case Composite => v.OtherV?
    case Opaque => v.OtherV?
  }

  /** The values of a struct, one per declared field, each of its field's type. */
  predicate FieldsHaveKinds(vs: seq<Value>, fs: seq<FieldDecl>)
  {
    && |vs| == |fs|
    && forall i :: 0 <= i < |fs| ==> HasKind(vs[i], fs[i].kind)
  }

  /** Reflection's `IsZero`: the zero value of its type (a struct when all its fields are). */
  predicate IsZero(v: Value)
  {
    match v
    case BoolV(b) => !b
    case IntV(i) => i == 0
    case FloatV(bits) => bits == 0
    case StrV(s) => s == ""
    case PtrV(t) => t.None?
    case StructV(vs) => forall i :: 0 <= i < |vs| ==> IsZero(vs[i])
    case OtherV(_, z) => z
  }

  /** The zero value of a type: what a freshly declared Go variable holds. */
  function Zero(k: Kind): (v: Value)
    ensures HasKind(v, k)
    ensures IsZero(v)
  {
    match k
    case Bool => BoolV(false)
    case Int(_) => IntV(0)
    case Uint(_) => IntV(0)
    case F32 => FloatV(0)
    case F64 => FloatV(0)
    case Str => StrV("")
    case Ptr(_) => PtrV(None)
    case Struct(fs) => StructV(ZeroFields(fs))
    case Complex => OtherV("", true)
    case Composite => OtherV("", true)
    case Opaque => OtherV("", true)
  }

  /** The zero values of a struct's fields. */
  function ZeroFields(fs: seq<FieldDecl>): (vs: seq<Value>)
    ensures FieldsHaveKinds(vs, fs)
    ensures forall i :: 0 <= i < |vs| ==> IsZero(vs[i]) && vs[i] == Zero(fs[i].kind)
  {
    if fs == [] then [] else [Zero(fs[0].kind)] + ZeroFields(fs[1..])
  }

  /** The kinds that hold a single scalar: the ones a zero test fully determines. */
  predicate Scalar(k: Kind)
  {
    k.Bool? || k.Int? || k.Uint? || k.F32? || k.F64? || k.Str?
  }

  /** A scalar value is the zero value exactly when it equals its type's `Zero`. */
  lemma ScalarZeroIsZero(v: Value, k: Kind)
    requires Scalar(k) && HasKind(v, k)
    ensures IsZero(v) <==> v == Zero(k)
  {
  }

  /** Every struct field reached through nested structs is exported (reflection panics otherwise). */
  predicate NestedStructsExported(fs: seq<FieldDecl>)
  {
    forall i :: 0 <= i < |fs| && fs[i].kind.Struct? ==>
      fs[i].exported && NestedStructsExported(fs[i].kind.fields)
  }

  /** The kind left after stripping every pointer level: `**int` has base kind `int`. */
  function BaseKind(k: Kind): (b: Kind)
    ensures !b.Ptr?
    ensures !k.Ptr? ==> b == k
  {
    if k.Ptr? then BaseKind(k.elem) else k
  }

  /** `n` levels of pointer around `k`. */
  function PointerTo(n: nat, k: Kind): Kind
  {
    if n == 0 then k else Ptr(PointerTo(n - 1, k))
  }

  /** `x` behind `n` levels of non-nil pointers. */
  function Boxed(n: nat, x: Value): Value
  {
    if n == 0 then x else PtrV(Some(Boxed(n - 1, x)))
  }

  /** The fields of a value of struct type have the struct's field types. */
  lemma StructFieldsTyped(v: Value, k: Kind)
    requires k.Struct? && HasKind(v, k)
    ensures v.StructV? && FieldsHaveKinds(v.fields, k.fields)
  {
  }
}
