/**
  Encoding then decoding: what `CreateQuery` writes into a map-backed store,
  read back by `ParseQuery` into a zero struct of the same type, reproduces
  the original struct when its fields are exported bool, integer or string
  fields bound to distinct keys.
 */
module RoundTrip {
  import opened Results
  import opened Values
  import opened Strconv
  import opened Coerce
  import opened Decode
  import opened Encode

  /** What a map-backed store answers for `key` after the writes: the last value written to it, or "". */
  function Lookup(ws: seq<Write>, key: string): string
  {
    if ws == [] then ""
    else if ws[|ws| - 1].0 == key then ws[|ws| - 1].1
    else Lookup(ws[..|ws| - 1], key)
  }

  /** A key written exactly once reads back that write. */
  lemma {:induction false} LookupSingle(ws: seq<Write>, j: nat, key: string)
    requires j < |ws| && ws[j].0 == key
    requires forall k :: 0 <= k < |ws| && k != j ==> ws[k].0 != key
    ensures Lookup(ws, key) == ws[j].1
    decreases |ws|
  {
    if j < |ws| - 1 {
      var front := ws[..|ws| - 1];
      forall k | 0 <= k < |front| && k != j
        ensures front[k].0 != key
      {
        assert front[k] == ws[k];
      }
      LookupSingle(front, j, key);
    }
  }

  /** A key never written reads back as "". */
  lemma {:induction false} LookupMissing(ws: seq<Write>, key: string)
    requires forall k :: 0 <= k < |ws| ==> ws[k].0 != key
    ensures Lookup(ws, key) == ""
    decreases |ws|
  {
    if ws != [] {
      var front := ws[..|ws| - 1];
      forall k | 0 <= k < |front|
        ensures front[k].0 != key
      {
        assert front[k] == ws[k];
      }
      LookupMissing(front, key);
    }
  }

  /** The getter of the store after the writes. */
  function StoreGetter(ws: seq<Write>): Getter
  {
    key => Lookup(ws, key)
  }

  /** A field the round trip is promised for: exported, bound by its tag, of bool, integer or string kind. */
  predicate FlatField(d: FieldDecl)
  {
    && d.exported
    && Bound(d.tag)
    && (d.kind.Bool? || d.kind.Int? || d.kind.Uint? || d.kind.Str?)
  }

  /** The structs the round trip is promised for: such fields only, no two sharing a tag. */
  predicate FlatBindable(decls: seq<FieldDecl>)
  {
    && (forall i :: 0 <= i < |decls| ==> FlatField(decls[i]))
    && (forall i, j :: 0 <= i < j < |decls| ==> decls[i].tag != decls[j].tag)
  }

  /** For such a field, being written is the same as being non-zero. */
  lemma FlatEmits(d: FieldDecl, v: Value)
    requires FlatField(d) && HasKind(v, d.kind)
    ensures Emits(d, v) <==> !IsZero(v)
  {
  }

  /** The text written for a non-zero field is non-empty and coerces back to the field's value. */
  lemma {:induction false} ScalarReadsBack(formatFloat: FloatFormatter, parseFloat: FloatParser, d: FieldDecl, v: Value)
    requires FlatField(d) && HasKind(v, d.kind) && !IsZero(v)
    ensures Emits(d, v)
    ensures FieldWrite(formatFloat, d, v).1 != ""
    ensures SetValue(FieldWrite(formatFloat, d, v).1, d.kind, parseFloat) == Ok(v)
  {
    var text := FieldWrite(formatFloat, d, v).1;
    match d.kind
    case Bool =>
      assert text == "true";
    case Int(w) =>
      ParseIntFormatInt(v.i, Bits(w));
    case Uint(w) =>
      ParseUintFormatUint(v.i as nat, Bits(w));
    case Str =>
  }

  /** The text the store holds for a field after encoding: its written text, or "" when it is not written. */
  function Expected(formatFloat: FloatFormatter, d: FieldDecl, v: Value): string
    requires HasKind(v, d.kind)
  {
    if Emits(d, v) then FieldWrite(formatFloat, d, v).1 else ""
  }

  /**
    Writes whose keys are the tags of fields at increasing positions, with no
    two fields sharing a tag: looking up a field's tag finds the write made at
    its position, or nothing when none was.
   */
  lemma LookupAtPositions(ws: seq<Write>, idx: seq<nat>, decls: seq<FieldDecl>, i: nat)
    requires |ws| == |idx| && i < |decls|
    requires forall j :: 0 <= j < |idx| ==> idx[j] < |decls| && ws[j].0 == decls[idx[j]].tag
    requires forall j, k :: 0 <= j < k < |idx| ==> idx[j] < idx[k]
    requires forall a, b :: 0 <= a < b < |decls| ==> decls[a].tag != decls[b].tag
    ensures forall p :: 0 <= p < |idx| && idx[p] == i ==> Lookup(ws, decls[i].tag) == ws[p].1
    ensures i !in idx ==> Lookup(ws, decls[i].tag) == ""
  {
    var key := decls[i].tag;
    forall p | 0 <= p < |idx| && idx[p] == i
      ensures Lookup(ws, key) == ws[p].1
    {
      forall q | 0 <= q < |ws| && q != p
        ensures ws[q].0 != key
      {
        assert idx[q] != i by {
          if q < p { assert idx[q] < idx[p]; } else { assert idx[p] < idx[q]; }
        }
      }
      LookupSingle(ws, p, key);
    }
    if i !in idx {
      forall q | 0 <= q < |ws|
        ensures ws[q].0 != key
      {
        assert idx[q] != i;
      }
      LookupMissing(ws, key);
    }
  }

  /** After encoding, the store answers each field's tag with that field's expected text. */
  lemma StoreHoldsFields(formatFloat: FloatFormatter, decls: seq<FieldDecl>, vals: seq<Value>, i: nat)
    requires FlatBindable(decls) && FieldsHaveKinds(vals, decls) && i < |decls|
    ensures Lookup(EncodeFields(formatFloat, decls, vals), decls[i].tag) == Expected(formatFloat, decls[i], vals[i])
  {
    var ws := EncodeFields(formatFloat, decls, vals);
    var idx := Emitting(formatFloat, decls, vals);
    LookupAtPositions(ws, idx, decls, i);
    if Emits(decls[i], vals[i]) {
      assert i in idx;
      var p :| 0 <= p < |idx| && idx[p] == i;
      assert ws[p] == FieldWrite(formatFloat, decls[i], vals[i]);
    } else {
      assert i !in idx;
    }
  }

  /** One field decoded from its expected text into its zero value becomes the original value. */
  lemma DecodeFieldExpected(get: Getter, formatFloat: FloatFormatter, parseFloat: FloatParser, d: FieldDecl, v: Value)
    requires FlatField(d) && HasKind(v, d.kind)
    requires get(d.tag) == Expected(formatFloat, d, v)
    ensures DecodeField(get, parseFloat, d, Zero(d.kind)) == (v, None)
  {
    FlatEmits(d, v);
    if IsZero(v) {
      ScalarZeroIsZero(v, d.kind);
    } else {
      ScalarReadsBack(formatFloat, parseFloat, d, v);
    }
  }

  /** The zero values of a non-empty field list: the first field's zero, then the rest's. */
  lemma ZeroFieldsCons(decls: seq<FieldDecl>)
    requires decls != []
    ensures ZeroFields(decls) == [Zero(decls[0].kind)] + ZeroFields(decls[1..])
  {
  }

  /** When the first field decodes without error, the loop goes on to the rest. */
  lemma DecodeFieldsStep(get: Getter, parseFloat: FloatParser, decls: seq<FieldDecl>, vals: seq<Value>,
                         v0: Value, rest: seq<Value>)
    requires decls != [] && FieldsHaveKinds(vals, decls) && NestedStructsExported(decls)
    requires DecodeField(get, parseFloat, decls[0], vals[0]) == (v0, None)
    requires DecodeFields(get, parseFloat, decls[1..], vals[1..]) == (rest, None)
    ensures DecodeFields(get, parseFloat, decls, vals) == ([v0] + rest, None)
  {
  }

  /** The getter answers every field's tag with the text encoding left for it. */
  predicate Answers(get: Getter, formatFloat: FloatFormatter, decls: seq<FieldDecl>, vals: seq<Value>)
  {
    && FieldsHaveKinds(vals, decls)
    && forall i :: 0 <= i < |decls| ==>
         FlatField(decls[i]) && get(decls[i].tag) == Expected(formatFloat, decls[i], vals[i])
  }

  lemma AnswersTail(get: Getter, formatFloat: FloatFormatter, decls: seq<FieldDecl>, vals: seq<Value>)
    requires decls != [] && Answers(get, formatFloat, decls, vals)
    ensures FlatField(decls[0]) && HasKind(vals[0], decls[0].kind)
    ensures get(decls[0].tag) == Expected(formatFloat, decls[0], vals[0])
    ensures Answers(get, formatFloat, decls[1..], vals[1..])
    ensures NestedStructsExported(decls) <== NestedStructsExported(decls[1..])
  {
    assert FlatField(decls[0]);
    forall i | 0 <= i < |decls[1..]|
      ensures FlatField(decls[1..][i]) && get(decls[1..][i].tag) == Expected(formatFloat, decls[1..][i], vals[1..][i])
    {
      assert decls[1..][i] == decls[i + 1] && vals[1..][i] == vals[i + 1];
    }
    if NestedStructsExported(decls[1..]) {
      forall i | 0 <= i < |decls| && decls[i].kind.Struct?
        ensures decls[i].exported && NestedStructsExported(decls[i].kind.fields)
      {
        assert i > 0 && decls[i] == decls[1..][i - 1];
      }
    }
  }

  /** Decoding answered fields into their zero values gives the original values and no error. */
  lemma {:induction false} DecodeAnswered(get: Getter, formatFloat: FloatFormatter, parseFloat: FloatParser,
                                          decls: seq<FieldDecl>, vals: seq<Value>)
    requires Answers(get, formatFloat, decls, vals)
    ensures NestedStructsExported(decls)
    ensures DecodeFields(get, parseFloat, decls, ZeroFields(decls)) == (vals, None)
    decreases |decls|
  {
    if decls != [] {
      AnswersTail(get, formatFloat, decls, vals);
      DecodeAnswered(get, formatFloat, parseFloat, decls[1..], vals[1..]);
      ZeroFieldsCons(decls);
      DecodeFieldExpected(get, formatFloat, parseFloat, decls[0], vals[0]);
      DecodeFieldsStep(get, parseFloat, decls, ZeroFields(decls), vals[0], vals[1..]);
      assert vals == [vals[0]] + vals[1..];
    }
  }

  /** Encoding a struct argument gives its fields' writes and no error, zero or not. */
  lemma EncodeStruct(formatFloat: FloatFormatter, decls: seq<FieldDecl>, vals: seq<Value>)
    requires FieldsHaveKinds(vals, decls)
    ensures CreateQuery(formatFloat, Arg(Struct(decls), StructV(vals))) == (EncodeFields(formatFloat, decls, vals), None)
  {
    if IsZero(StructV(vals)) {
      ZeroFieldsWriteNothing(formatFloat, decls, vals);
    } else {
      CreateQueryStruct(formatFloat, decls, vals);
    }
  }

  /** `ParseQuery` through a non-nil pointer to a struct decodes the struct's fields in place. */
  lemma ParseQueryStruct(get: Getter, parseFloat: FloatParser, decls: seq<FieldDecl>, vs: seq<Value>)
    requires FieldsHaveKinds(vs, decls) && NestedStructsExported(decls)
    ensures WellFormedArg(Arg(Ptr(Struct(decls)), PtrV(Some(StructV(vs)))))
    ensures var (out, e) := DecodeFields(get, parseFloat, decls, vs);
      ParseQuery(get, parseFloat, Arg(Ptr(Struct(decls)), PtrV(Some(StructV(vs))))) ==
        (Arg(Ptr(Struct(decls)), PtrV(Some(StructV(out)))), e)
  {
  }

  /**
    The round trip: encode a struct of exported bool, integer and string
    fields with distinct binding tags, store the writes in a map, and decode
    them into a zero struct of the same type through a pointer: the result is
    the original struct and no error. Zero fields are neither written nor
    changed; integers are written in decimal and read back as base-0 literals.
   */
  lemma RoundTrip(formatFloat: FloatFormatter, parseFloat: FloatParser, decls: seq<FieldDecl>, vals: seq<Value>)
    requires FlatBindable(decls) && FieldsHaveKinds(vals, decls)
    ensures var (ws, e) := CreateQuery(formatFloat, Arg(Struct(decls), StructV(vals)));
      var target := Arg(Ptr(Struct(decls)), PtrV(Some(StructV(ZeroFields(decls)))));
      && e.None?
      && WellFormedArg(target)
      && ParseQuery(StoreGetter(ws), parseFloat, target) == (Arg(Ptr(Struct(decls)), PtrV(Some(StructV(vals)))), None)
  {
    EncodeStruct(formatFloat, decls, vals);
    var ws := EncodeFields(formatFloat, decls, vals);
    var get := StoreGetter(ws);
    forall i | 0 <= i < |decls|
      ensures FlatField(decls[i]) && get(decls[i].tag) == Expected(formatFloat, decls[i], vals[i])
    {
      StoreHoldsFields(formatFloat, decls, vals, i);
    }
    DecodeAnswered(get, formatFloat, parseFloat, decls, vals);
    ParseQueryStruct(get, parseFloat, decls, ZeroFields(decls));
  }
}
