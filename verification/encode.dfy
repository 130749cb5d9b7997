/**
  The encode direction of query.go, `CreateQuery`: write `tag -> %v text`
  for every tagged field of a struct that, after following its pointers,
  holds a non-zero value of a kind the encoder does not skip.
 */
module Encode {
  import opened Results
  import opened Values
  import opened Strconv

  /** `%v` for a float, taken as given: the text for an IEEE bit pattern (single precision when the flag is set). */
  type FloatFormatter = (nat, bool) -> string

  /** One call of the setter: key, then value. */
  type Write = (string, string)

  /** Where the pointer chase of a field ends: the type reached, and the value reached unless a nil pointer was crossed. */
  datatype Resolved = Resolved(kind: Kind, value: Option<Value>)

  /**
    The pointer chase of `CreateQuery`: follow every pointer level of the
    field's type, dereferencing the value alongside. Past a nil pointer the
    value is absent but the type is still followed to its base kind.
   */
  function Resolve(k: Kind, v: Option<Value>): (r: Resolved)
    requires v.Some? ==> HasKind(v.value, k)
    ensures r.kind == BaseKind(k)
    ensures r.value.Some? ==> HasKind(r.value.value, r.kind)
    ensures v.None? ==> r.value.None?
    ensures !k.Ptr? ==> r == Resolved(k, v)
  {
    match k
    case Ptr(e) => Resolve(e, if v.Some? then v.value.target else None)
    case _ => Resolved(k, v)
  }

  /** A value behind any number of non-nil pointers has the pointer type of that depth. */
  lemma {:induction false} BoxedHasKind(n: nat, k: Kind, x: Value)
    requires HasKind(x, k)
    ensures HasKind(Boxed(n, x), PointerTo(n, k))
  {
    if n > 0 {
      BoxedHasKind(n - 1, k, x);
    }
  }

  /** The chase sees through every level: `**int` holding a pointer to a pointer to `x` resolves to `x`. */
  lemma {:induction false} ResolveBoxed(n: nat, k: Kind, x: Value)
    requires !k.Ptr? && HasKind(x, k)
    ensures HasKind(Boxed(n, x), PointerTo(n, k))
    ensures Resolve(PointerTo(n, k), Some(Boxed(n, x))) == Resolved(k, Some(x))
  {
    BoxedHasKind(n, k, x);
    if n > 0 {
      ResolveBoxed(n - 1, k, x);
    }
  }

  /** A nil pointer at any depth leaves nothing to write. */
  lemma {:induction false} ResolveNil(n: nat, k: Kind)
    ensures HasKind(Boxed(n, PtrV(None)), PointerTo(n + 1, k))
    ensures Resolve(PointerTo(n + 1, k), Some(Boxed(n, PtrV(None)))).value.None?
  {
    BoxedHasKind(n, Ptr(k), PtrV(None));
    assert PointerTo(n + 1, k) == PointerTo(n, Ptr(k)) by {
      PointerToShift(n, k);
    }
    if n > 0 {
      ResolveNil(n - 1, k);
    }
  }

  lemma {:induction false} PointerToShift(n: nat, k: Kind)
    ensures PointerTo(n + 1, k) == PointerTo(n, Ptr(k))
  {
    if n > 0 {
      PointerToShift(n - 1, k);
    }
  }

  /** How the pointer chase as the source writes it ends: a reflection panic, or the type and value reached. */
  datatype Chase = Panic | Reached(kind: Kind, value: Option<Value>)

  /**
    The pointer chase exactly as the source writes it: on a pointer type the
    value is dereferenced with `Elem` before looking at the element type. Once
    a nil pointer has been crossed the value is the invalid `reflect.Value`,
    and calling `Elem` on that panics, so a nil outer pointer of a `**T`
    field never reaches the tag or zero tests.
   */
  function ResolveAsWritten(k: Kind, v: Option<Value>): (c: Chase)
    requires v.Some? ==> HasKind(v.value, k)
    ensures c.Reached? ==> c.kind == BaseKind(k)
  {
    match k
    case Ptr(e) => if v.None? then Panic else ResolveAsWritten(e, v.value.target)
    case _ => Reached(k, v)
  }

  /** A nil `**T` field (of any base kind) makes the source's pointer chase panic. */
  lemma NilDoublePointerPanics(k: Kind)
    ensures ResolveAsWritten(Ptr(Ptr(k)), Some(PtrV(None))) == Panic
  {
  }

  /** Wherever the source's chase does not panic, `Resolve` reaches the same type and value. */
  lemma {:induction false} ResolveMatchesSource(k: Kind, v: Option<Value>)
    requires v.Some? ==> HasKind(v.value, k)
    ensures var c := ResolveAsWritten(k, v);
      c.Reached? ==> Resolve(k, v) == Resolved(c.kind, c.value)
  {
    if k.Ptr? && v.Some? {
      ResolveMatchesSource(k.elem, v.value.target);
    }
  }

  /** The kinds the encoder skips once all pointers are followed: complex, struct, and composite kinds. */
  predicate SkippedByEncoder(k: Kind)
    ensures !SkippedByEncoder(k) <==> Scalar(k) || k.Opaque? || k.Ptr?
  {
    k.Complex? || k.Struct? || k.Composite?
  }

  /**
    The text `%v` prints for a value of a non-pointer kind the encoder writes:
    text that the matching `strconv` parser reads back as the value, the
    string itself, or the opaque text the value carries.
   */
  function Render(formatFloat: FloatFormatter, k: Kind, v: Value): (s: string)
    requires HasKind(v, k) && !k.Ptr? && !SkippedByEncoder(k)
    ensures k.Bool? ==> ParseBool(s) == Ok(v.b)
    ensures k.Int? ==> SignedLiteral(s) == Some(v.i)
    ensures k.Uint? ==> UnsignedLiteral(s) == Some(v.i)
    ensures k.Str? ==> s == v.s
    ensures k.F32? ==> s == formatFloat(v.bits, true)
    ensures k.F64? ==> s == formatFloat(v.bits, false)
    ensures k.Opaque? ==> s == v.text
  {
    match k
    case Bool =>
      ParseBoolFormatBool(v.b);
      FormatBool(v.b)
    case Int(_) =>
      SignedLiteralFormatInt(v.i);
      FormatInt(v.i)
    case Uint(_) =>
      UnsignedLiteralFormatUint(v.i as nat);
      FormatUint(v.i as nat)
    case F32 => formatFloat(v.bits, true)
    case F64 => formatFloat(v.bits, false)
    case Str => v.s
    case Opaque => v.text
    case Ptr(_) | Complex | Struct(_) | Composite => assert false; ""
  }

  /**
    Whether `CreateQuery` writes a field, by the tests of its loop in order:
    the kind reached through the pointers is not skipped, the tag is present
    and not "-", and the value reached is valid (no nil pointer was crossed)
    and not the zero value. Whether the field is exported plays no part.
   */
  predicate Emits(d: FieldDecl, v: Value)
    requires HasKind(v, d.kind)
    ensures Emits(d, v) ==> Bound(d.tag) && !IsZero(v) && !SkippedByEncoder(BaseKind(d.kind))
    ensures !d.kind.Ptr? ==> (Emits(d, v) <==> !SkippedByEncoder(d.kind) && Bound(d.tag) && !IsZero(v))
  {
    var r := Resolve(d.kind, Some(v));
    && !SkippedByEncoder(r.kind)
    && Bound(d.tag)
    && r.value.Some?
    && !IsZero(r.value.value)
  }

  /** The pair written for a field that is written: its tag and the `%v` text of the value reached. */
  function FieldWrite(formatFloat: FloatFormatter, d: FieldDecl, v: Value): (w: Write)
    requires HasKind(v, d.kind) && Emits(d, v)
    ensures w.0 == d.tag && Bound(w.0)
  {
    var r := Resolve(d.kind, Some(v));
    (d.tag, Render(formatFloat, r.kind, r.value.value))
  }

  /** What the loop does with one field: the pair it writes, or nothing when the field is skipped. */
  function FieldOutput(formatFloat: FloatFormatter, d: FieldDecl, v: Value): (o: Option<Write>)
    requires HasKind(v, d.kind)
    ensures o.Some? <==> Emits(d, v)
    ensures o.Some? ==> o.value.0 == d.tag && Bound(d.tag)
  {
    if Emits(d, v) then Some(FieldWrite(formatFloat, d, v)) else None
  }

  /** The outcome of the loop body for each field of a struct, in field order. */
  function Outputs(formatFloat: FloatFormatter, decls: seq<FieldDecl>, vals: seq<Value>): (os: seq<Option<Write>>)
    requires FieldsHaveKinds(vals, decls)
    ensures |os| == |decls|
    ensures forall f :: 0 <= f < |decls| ==> os[f] == FieldOutput(formatFloat, decls[f], vals[f])
  {
    seq(|decls|, f requires 0 <= f < |decls| => FieldOutput(formatFloat, decls[f], vals[f]))
  }

  /** The loop from position `i` on: the present outputs, in order. */
  function Collect<T>(os: seq<Option<T>>, i: nat): seq<T>
    requires i <= |os|
    decreases |os| - i
  {
    if i == |os| then []
    else (if os[i].Some? then [os[i].value] else []) + Collect(os, i + 1)
  }

  /** The positions, from `i` on, of the present outputs: exactly those, in increasing order. */
  function Positions<T>(os: seq<Option<T>>, i: nat): (idx: seq<nat>)
    requires i <= |os|
    ensures forall j :: 0 <= j < |idx| ==> i <= idx[j] < |os| && os[idx[j]].Some?
    ensures forall j, k :: 0 <= j < k < |idx| ==> idx[j] < idx[k]
    ensures forall f :: i <= f < |os| && os[f].Some? ==> f in idx
    ensures |idx| <= |os| - i
    decreases |os| - i
  {
    if i == |os| then []
    else
      var rest := Positions(os, i + 1);
      PositionsStep(os, i, rest);
      (if os[i].Some? then [i] else []) + rest
  }

  /** One step of `Positions`: the position `i`, when present, goes in front of the later ones. */
  lemma PositionsStep<T>(os: seq<Option<T>>, i: nat, rest: seq<nat>)
    requires i < |os|
    requires forall j :: 0 <= j < |rest| ==> i + 1 <= rest[j] < |os| && os[rest[j]].Some?
    requires forall j, k :: 0 <= j < k < |rest| ==> rest[j] < rest[k]
    requires forall f :: i + 1 <= f < |os| && os[f].Some? ==> f in rest
    requires |rest| <= |os| - (i + 1)
    ensures var idx := (if os[i].Some? then [i] else []) + rest;
      && (forall j :: 0 <= j < |idx| ==> i <= idx[j] < |os| && os[idx[j]].Some?)
      && (forall j, k :: 0 <= j < k < |idx| ==> idx[j] < idx[k])
      && (forall f :: i <= f < |os| && os[f].Some? ==> f in idx)
      && |idx| <= |os| - i
  {
    if os[i].Some? {
      var idx := [i] + rest;
      forall j | 0 < j < |idx|
        ensures idx[j] == rest[j - 1]
      {
      }
    }
  }

  /** Putting a present output in front keeps items and positions paired. */
  lemma ConsAtPositions<T>(os: seq<Option<T>>, i: nat, wrest: seq<T>, rest: seq<nat>)
    requires i < |os| && os[i].Some?
    requires |wrest| == |rest|
    requires forall j :: 0 <= j < |rest| ==> rest[j] < |os| && os[rest[j]].Some? && wrest[j] == os[rest[j]].value
    ensures var ws, idx := [os[i].value] + wrest, [i] + rest;
      forall j :: 0 <= j < |ws| ==> idx[j] < |os| && os[idx[j]].Some? && ws[j] == os[idx[j]].value
  {
    var ws, idx := [os[i].value] + wrest, [i] + rest;
    forall j | 0 <= j < |ws|
      ensures idx[j] < |os| && os[idx[j]].Some? && ws[j] == os[idx[j]].value
    {
      if j > 0 {
        assert ws[j] == wrest[j - 1] && idx[j] == rest[j - 1];
      }
    }
  }

  /** The collected items are the present outputs at those positions, one each. */
  lemma {:induction false} CollectAtPositions<T>(os: seq<Option<T>>, i: nat)
    requires i <= |os|
    ensures var idx := Positions(os, i);
      var ws := Collect(os, i);
      && |ws| == |idx|
      && forall j :: 0 <= j < |ws| ==> ws[j] == os[idx[j]].value
    decreases |os| - i
  {
    if i < |os| {
      CollectAtPositions(os, i + 1);
      var rest, wrest := Positions(os, i + 1), Collect(os, i + 1);
      if os[i].Some? {
        assert Positions(os, i) == [i] + rest;
        assert Collect(os, i) == [os[i].value] + wrest;
        ConsAtPositions(os, i, wrest, rest);
      } else {
        assert Positions(os, i) == rest;
        assert Collect(os, i) == wrest;
      }
    }
  }

  /** With no present output from `i` on, there are no positions. */
  lemma {:induction false} PositionsNone<T>(os: seq<Option<T>>, i: nat)
    requires i <= |os|
    requires forall f :: i <= f < |os| ==> os[f].None?
    ensures Positions(os, i) == []
    decreases |os| - i
  {
    if i < |os| {
      PositionsNone(os, i + 1);
    }
  }

  /** The positions of the fields `CreateQuery` writes. */
  function Emitting(formatFloat: FloatFormatter, decls: seq<FieldDecl>, vals: seq<Value>): (idx: seq<nat>)
    requires FieldsHaveKinds(vals, decls)
    ensures forall j :: 0 <= j < |idx| ==> idx[j] < |decls| && Emits(decls[idx[j]], vals[idx[j]])
    ensures forall j, k :: 0 <= j < k < |idx| ==> idx[j] < idx[k]
    ensures forall f :: 0 <= f < |decls| && Emits(decls[f], vals[f]) ==> f in idx
  {
    Positions(Outputs(formatFloat, decls, vals), 0)
  }

  /**
    The field loop of `CreateQuery`: one `(tag, %v text)` pair per field
    that is written, in field order, and nothing else.
   */
  function EncodeFields(formatFloat: FloatFormatter, decls: seq<FieldDecl>, vals: seq<Value>): (ws: seq<Write>)
    requires FieldsHaveKinds(vals, decls)
    ensures var idx := Emitting(formatFloat, decls, vals);
      && |ws| == |idx|
      && (forall j :: 0 <= j < |ws| ==> ws[j].0 == decls[idx[j]].tag && Bound(ws[j].0))
      && (forall j :: 0 <= j < |ws| ==> ws[j] == FieldWrite(formatFloat, decls[idx[j]], vals[idx[j]]))
    ensures |ws| <= |decls|
  {
    var os := Outputs(formatFloat, decls, vals);
    CollectAtPositions(os, 0);
    Collect(os, 0)
  }

  /** A field holding its type's zero value is never written; neither is a nil pointer. */
  lemma ZeroNeverEmits(d: FieldDecl, v: Value)
    requires HasKind(v, d.kind) && IsZero(v)
    ensures !Emits(d, v)
  {
  }

  /** A struct whose fields all hold zero values produces no writes. */
  lemma ZeroFieldsWriteNothing(formatFloat: FloatFormatter, decls: seq<FieldDecl>, vals: seq<Value>)
    requires FieldsHaveKinds(vals, decls)
    requires forall i :: 0 <= i < |vals| ==> IsZero(vals[i])
    ensures EncodeFields(formatFloat, decls, vals) == []
  {
    var os := Outputs(formatFloat, decls, vals);
    forall f | 0 <= f < |os|
      ensures os[f].None?
    {
      ZeroNeverEmits(decls[f], vals[f]);
    }
    PositionsNone(os, 0);
  }

  /** The argument after `CreateQuery`'s single dereference of a top-level pointer. */
  function DerefOnce(a: Arg): (r: (Kind, Value))
    requires a.Arg? && HasKind(a.value, a.kind) && !IsZero(a.value)
    ensures HasKind(r.1, r.0)
  {
    if a.kind.Ptr? then (a.kind.elem, a.value.target.value) else (a.kind, a.value)
  }

  /**
    `CreateQuery`: nothing to do for a nil or zero argument; otherwise one
    pointer level is removed, the result must be a struct (else `Unsupported`
    with its type and no writes), and its fields are encoded.
   */
  function CreateQuery(formatFloat: FloatFormatter, a: Arg): (r: (seq<Write>, Option<Error>))
    requires a.Arg? ==> HasKind(a.value, a.kind)
    ensures a.NilArg? || IsZero(a.value) ==> r == ([], None)
    ensures a.Arg? && !IsZero(a.value) ==>
      var (k, v) := DerefOnce(a);
      && (k.Struct? <==> r.1.None?)
      && (!k.Struct? ==> r == ([], Some(Unsupported(k))))
      && (k.Struct? ==> v.StructV? && FieldsHaveKinds(v.fields, k.fields) &&
                        r.0 == EncodeFields(formatFloat, k.fields, v.fields))
    ensures forall j :: 0 <= j < |r.0| ==> Bound(r.0[j].0)
  {
    if a.NilArg? || IsZero(a.value) then ([], None)
    else
      var (k, v) := DerefOnce(a);
      if !k.Struct? then ([], Some(Unsupported(k)))
      else
        StructFieldsTyped(v, k);
        (EncodeFields(formatFloat, k.fields, v.fields), None)
  }

  /** Only one pointer level is removed: a non-nil pointer to a pointer to a struct is `Unsupported`. */
  lemma PointerToPointerUnsupported(formatFloat: FloatFormatter, fs: seq<FieldDecl>, vs: seq<Value>)
    requires FieldsHaveKinds(vs, fs)
    ensures CreateQuery(formatFloat, Arg(Ptr(Ptr(Struct(fs))), PtrV(Some(PtrV(Some(StructV(vs))))))) ==
      ([], Some(Unsupported(Ptr(Struct(fs)))))
  {
  }

  /**
    A non-nil pointer to a struct, as the package's own tests pass it, is
    dereferenced once and its struct encoded field by field, with no error,
    whether or not the struct is zero.
   */
  lemma CreateQueryPointer(formatFloat: FloatFormatter, fs: seq<FieldDecl>, vs: seq<Value>)
    requires FieldsHaveKinds(vs, fs)
    ensures CreateQuery(formatFloat, Arg(Ptr(Struct(fs)), PtrV(Some(StructV(vs))))) ==
      (EncodeFields(formatFloat, fs, vs), None)
  {
    var a := Arg(Ptr(Struct(fs)), PtrV(Some(StructV(vs))));
    assert !IsZero(a.value);
    assert DerefOnce(a) == (Struct(fs), StructV(vs));
  }

  /** A non-zero struct argument is encoded field by field, with no error. */
  lemma CreateQueryStruct(formatFloat: FloatFormatter, fs: seq<FieldDecl>, vs: seq<Value>)
    requires FieldsHaveKinds(vs, fs) && !IsZero(StructV(vs))
    ensures CreateQuery(formatFloat, Arg(Struct(fs), StructV(vs))) == (EncodeFields(formatFloat, fs, vs), None)
  {
    assert DerefOnce(Arg(Struct(fs), StructV(vs))) == (Struct(fs), StructV(vs));
  }

  /** A single field that is written gives exactly its pair. */
  lemma EncodeSingle(formatFloat: FloatFormatter, d: FieldDecl, v: Value)
    requires HasKind(v, d.kind) && Emits(d, v)
    ensures FieldsHaveKinds([v], [d])
    ensures EncodeFields(formatFloat, [d], [v]) == [FieldWrite(formatFloat, d, v)]
  {
    var idx := Emitting(formatFloat, [d], [v]);
    assert 0 in idx;
    assert idx == [0];
    var ws := EncodeFields(formatFloat, [d], [v]);
    assert |ws| == 1 && ws[0] == FieldWrite(formatFloat, d, v);
  }

  /** A struct with one field that is written produces exactly that field's pair. */
  lemma SingleFieldWrite(formatFloat: FloatFormatter, d: FieldDecl, v: Value)
    requires HasKind(v, d.kind) && Emits(d, v)
    ensures FieldsHaveKinds([v], [d])
    ensures CreateQuery(formatFloat, Arg(Struct([d]), StructV([v]))) == ([FieldWrite(formatFloat, d, v)], None)
  {
    if IsZero(v) {
      ZeroNeverEmits(d, v);
    }
    assert [v][0] == v;
    EncodeSingle(formatFloat, d, v);
    CreateQueryStruct(formatFloat, [d], [v]);
  }

  /**
    An unexported `**int` field tagged "h" and holding a pointer to a pointer
    to 5 is written as ("h", "5"): the chase follows both levels, and
    exportedness is not consulted.
   */
  lemma DoublePointerFieldExample(formatFloat: FloatFormatter)
    ensures var decls := [FieldDecl("h", false, Ptr(Ptr(Int(WNative))))];
      var vals := [PtrV(Some(PtrV(Some(IntV(5)))))];
      FieldsHaveKinds(vals, decls) &&
      CreateQuery(formatFloat, Arg(Struct(decls), StructV(vals))) == ([("h", "5")], None)
  {
    var d := FieldDecl("h", false, Ptr(Ptr(Int(WNative))));
    var v := PtrV(Some(PtrV(Some(IntV(5)))));
    ResolveBoxed(2, Int(WNative), IntV(5));
    assert Boxed(2, IntV(5)) == v;
    assert PointerTo(2, Int(WNative)) == d.kind;
    assert Resolve(d.kind, Some(v)) == Resolved(Int(WNative), Some(IntV(5)));
    assert FormatInt(5) == "5";
    assert Emits(d, v);
    assert FieldWrite(formatFloat, d, v) == ("h", "5");
    SingleFieldWrite(formatFloat, d, v);
  }
}
