/**
  The decode direction of query.go, `ParseQuery`: fill a struct's tagged
  fields from a getter, recursing into struct-typed fields, skipping what the
  source skips and stopping at the first coercion failure.

  Alongside the traversal this module gives a reference decoder over the
  struct's flattened leaf fields and proves the two agree, so the fail-fast
  and skip properties stated once for flat field lists hold at any depth.
 */
module Decode {
  import opened Results
  import opened Values
  import opened Coerce

  /** The getter: the query value for a key, "" when the key is absent. */
  type Getter = string -> string

  /** An argument that is a non-nil pointer: what `ParseQuery` requires before looking further. */
  predicate NonNilPointer(a: Arg)
  {
    a.Arg? && a.kind.Ptr? && a.value.PtrV? && a.value.target.Some?
  }

  /** An argument whose value has its type, and whose nested structs reflection can address. */
  predicate WellFormedArg(a: Arg)
  {
    a.Arg? ==>
      && HasKind(a.value, a.kind)
      && (a.kind.Ptr? && a.kind.elem.Struct? ==> NestedStructsExported(a.kind.elem.fields))
  }

  /**
    One non-struct field of the loop in `ParseQuery`: skipped when its tag is
    absent or "-", when it cannot be set, or when the getter has nothing for
    its key; otherwise set through `setValue`. Returns the field's value
    afterwards and the error that stops the traversal, if any.
   */
  function DecodeLeaf(get: Getter, parseFloat: FloatParser, d: FieldDecl, v: Value): (r: (Value, Option<Error>))
    requires !d.kind.Struct?
    ensures HasKind(v, d.kind) ==> HasKind(r.0, d.kind)
    ensures r.1.Some? ==> r.0 == v && r.1.value.SetFailed?
    ensures r != (v, None) ==> Bound(d.tag) && d.exported && get(d.tag) != ""
    ensures Bound(d.tag) && d.exported && get(d.tag) != "" ==>
      var sv := SetValue(get(d.tag), d.kind, parseFloat);
      r == if sv.Ok? then (sv.value, None) else (v, Some(sv.error))
  {
    if !Bound(d.tag) then (v, None)
    else if !d.exported then (v, None)
    else
      var text := get(d.tag);
      if text == "" then (v, None)
      else
        match SetValue(text, d.kind, parseFloat)
        case Ok(nv) => (nv, None)
        case Err(e) => (v, Some(e))
  }

  /**
    The field loop of `ParseQuery` over a struct's field values, in
    declaration order. A struct-typed field is decoded recursively with the
    same getter, whatever its own tag; the first error ends the loop, leaving
    the fields before it decoded and the fields after it as they were.
   */
  function DecodeFields(get: Getter, parseFloat: FloatParser, decls: seq<FieldDecl>, vals: seq<Value>)
    : (r: (seq<Value>, Option<Error>))
    requires FieldsHaveKinds(vals, decls)
    requires NestedStructsExported(decls)
    ensures FieldsHaveKinds(r.0, decls)
    ensures r.1.Some? ==> r.1.value.SetFailed?
    decreases decls
  {
    if decls == [] then ([], None)
    else
      var (v0, e0) := DecodeField(get, parseFloat, decls[0], vals[0]);
      if e0.Some? then ([v0] + vals[1..], e0)
      else
        var (rest, e) := DecodeFields(get, parseFloat, decls[1..], vals[1..]);
        ([v0] + rest, e)
  }

  /** One field of the loop: recursion for a struct-typed field, `DecodeLeaf` otherwise. */
  function DecodeField(get: Getter, parseFloat: FloatParser, d: FieldDecl, v: Value): (r: (Value, Option<Error>))
    requires HasKind(v, d.kind)
    requires d.kind.Struct? ==> d.exported && NestedStructsExported(d.kind.fields)
    ensures HasKind(r.0, d.kind)
    ensures r.1.Some? ==> r.1.value.SetFailed?
    decreases d
  {
    if d.kind.Struct? then
      var (vs, e) := DecodeFields(get, parseFloat, d.kind.fields, v.fields);
      (StructV(vs), e)
    else
      DecodeLeaf(get, parseFloat, d, v)
  }

  /**
    `ParseQuery`: the argument must be a non-nil pointer, else `NonPointer`;
    what it points to must be a struct, else `Unsupported` with the pointee's
    type; then the struct's fields are decoded in place. Returns the argument
    as it stands afterwards (the same pointer, to the updated struct) and the
    error, if any.
   */
  function ParseQuery(get: Getter, parseFloat: FloatParser, a: Arg): (r: (Arg, Option<Error>))
    requires WellFormedArg(a)
    ensures !NonNilPointer(a) ==> r == (a, Some(NonPointer))
    ensures NonNilPointer(a) && !a.kind.elem.Struct? ==> r == (a, Some(Unsupported(a.kind.elem)))
    ensures WellFormedArg(r.0) && (r.0.Arg? <==> a.Arg?) && (a.Arg? ==> r.0.kind == a.kind)
    ensures NonNilPointer(a) && a.kind.elem.Struct? ==>
      NonNilPointer(r.0) && (r.1.Some? ==> r.1.value.SetFailed?)
  {
    if !NonNilPointer(a) then (a, Some(NonPointer))
    else if !a.kind.elem.Struct? then (a, Some(Unsupported(a.kind.elem)))
    else
      StructFieldsTyped(a.value.target.value, a.kind.elem);
      var (vs, e) := DecodeFields(get, parseFloat, a.kind.elem.fields, a.value.target.value.fields);
      (Arg(a.kind, PtrV(Some(StructV(vs)))), e)
  }

  // ---------------------------------------------------------------------
  // The struct seen as its flat list of leaf fields

  /** The non-struct fields of a struct type, nested structs expanded in place, in declaration order. */
  function Leaves(decls: seq<FieldDecl>): (ls: seq<FieldDecl>)
    ensures forall i :: 0 <= i < |ls| ==> !ls[i].kind.Struct?
  {
    if decls == [] then []
    else (if decls[0].kind.Struct? then Leaves(decls[0].kind.fields) else [decls[0]]) + Leaves(decls[1..])
  }

  /** The values of those leaf fields, in the same order. */
  function LeafValues(decls: seq<FieldDecl>, vals: seq<Value>): (vs: seq<Value>)
    requires FieldsHaveKinds(vals, decls)
    ensures |vs| == |Leaves(decls)|
  {
    if decls == [] then []
    else
      assert HasKind(vals[0], decls[0].kind);
      (if decls[0].kind.Struct? then StructFieldsTyped(vals[0], decls[0].kind); LeafValues(decls[0].kind.fields, vals[0].fields) else [vals[0]])
      + LeafValues(decls[1..], vals[1..])
  }

  /** The leaves are the whole state of a struct: two values of one struct type with equal leaves are equal. */
  lemma {:induction false} LeavesDetermineRecord(decls: seq<FieldDecl>, a: seq<Value>, b: seq<Value>)
    requires FieldsHaveKinds(a, decls) && FieldsHaveKinds(b, decls)
    requires LeafValues(decls, a) == LeafValues(decls, b)
    ensures a == b
    decreases decls
  {
    if decls != [] {
      var la := LeafValues(decls, a);
      if decls[0].kind.Struct? {
        var n := |LeafValues(decls[0].kind.fields, a[0].fields)|;
        assert LeafValues(decls[0].kind.fields, a[0].fields) == la[..n];
        assert LeafValues(decls[0].kind.fields, b[0].fields) == la[..n];
        assert LeafValues(decls[1..], a[1..]) == la[n..];
        assert LeafValues(decls[1..], b[1..]) == la[n..];
        LeavesDetermineRecord(decls[0].kind.fields, a[0].fields, b[0].fields);
      } else {
        assert a[0] == la[0] == b[0];
        assert LeafValues(decls[1..], a[1..]) == la[1..];
        assert LeafValues(decls[1..], b[1..]) == la[1..];
      }
      LeavesDetermineRecord(decls[1..], a[1..], b[1..]);
      assert a == [a[0]] + a[1..] && b == [b[0]] + b[1..];
    }
  }

  /** What `DecodeLeaf` makes of one leaf on its own: the leaf's value afterwards and its error, if any. */
  type Outcome = (Value, Option<Error>)

  /** The position of the first outcome with an error, or the number of outcomes when none has one. */
  function FirstError(os: seq<Outcome>): (j: nat)
    ensures j <= |os|
    ensures forall i :: 0 <= i < j ==> os[i].1.None?
    ensures j < |os| ==> os[j].1.Some?
  {
    if os == [] then 0
    else if os[0].1.Some? then 0
    else 1 + FirstError(os[1..])
  }

  /**
    Applying per-leaf outcomes in order, as the field loop does: each leaf
    takes its outcome's value up to and including the first one with an
    error, which ends the loop with that error; later leaves keep their
    values `vs`.
   */
  function Settle(os: seq<Outcome>, vs: seq<Value>): (r: (seq<Value>, Option<Error>))
    requires |os| == |vs|
    ensures |r.0| == |vs|
  {
    if os == [] then ([], None)
    else if os[0].1.Some? then ([os[0].0] + vs[1..], os[0].1)
    else
      var (rest, e) := Settle(os[1..], vs[1..]);
      ([os[0].0] + rest, e)
  }

  /**
    Settling is fail-fast: with `j` the first outcome with an error, leaves
    before `j` take their outcome's value, leaf `j` and every later leaf
    keep theirs, and the error is outcome `j`'s (none when no outcome has one).
   */
  lemma {:induction false} SettleFailFast(os: seq<Outcome>, vs: seq<Value>)
    requires |os| == |vs|
    requires forall i :: 0 <= i < |os| ==> os[i].1.Some? ==> os[i].0 == vs[i]
    ensures var r := Settle(os, vs);
      var j := FirstError(os);
      && (forall i :: 0 <= i < j ==> r.0[i] == os[i].0)
      && (forall i :: j <= i < |vs| ==> r.0[i] == vs[i])
      && r.1 == (if j < |os| then os[j].1 else None)
  {
    if os != [] && os[0].1.None? {
      SettleFailFast(os[1..], vs[1..]);
      var r := Settle(os, vs);
      var j := FirstError(os);
      forall i | 1 <= i < j
        ensures r.0[i] == os[i].0
      {
        assert os[1..][i - 1] == os[i];
      }
      forall i | j <= i < |vs|
        ensures r.0[i] == vs[i]
      {
        assert vs[1..][i - 1] == vs[i];
      }
    }
  }

  /** Settling `o1 + o2` settles `o1`, then `o2` only if `o1` had no error; otherwise `o2`'s leaves keep their values. */
  lemma {:induction false} SettleAppend(o1: seq<Outcome>, v1: seq<Value>, o2: seq<Outcome>, v2: seq<Value>)
    requires |o1| == |v1| && |o2| == |v2|
    ensures var a := Settle(o1, v1);
      Settle(o1 + o2, v1 + v2) ==
        if a.1.Some? then (a.0 + v2, a.1)
        else var b := Settle(o2, v2); (a.0 + b.0, b.1)
  {
    if o1 == [] {
      assert o1 + o2 == o2 && v1 + v2 == v2;
      assert [] + Settle(o2, v2).0 == Settle(o2, v2).0;
    } else {
      var os, vs := o1 + o2, v1 + v2;
      var x := [o1[0].0];
      assert os[0] == o1[0] && os[1..] == o1[1..] + o2 && vs[1..] == v1[1..] + v2;
      if o1[0].1.Some? {
        assert x + vs[1..] == (x + v1[1..]) + v2;
      } else {
        SettleAppend(o1[1..], v1[1..], o2, v2);
        var t, u := Settle(o1[1..], v1[1..]), Settle(o2, v2);
        assert x + (t.0 + v2) == (x + t.0) + v2;
        assert x + (t.0 + u.0) == (x + t.0) + u.0;
      }
    }
  }

  /** `DecodeLeaf` applied to every leaf on its own. */
  function Outcomes(get: Getter, parseFloat: FloatParser, ls: seq<FieldDecl>, vs: seq<Value>): (os: seq<Outcome>)
    requires |ls| == |vs|
    requires forall i :: 0 <= i < |ls| ==> !ls[i].kind.Struct?
    ensures |os| == |ls|
    ensures forall i :: 0 <= i < |ls| ==> os[i] == DecodeLeaf(get, parseFloat, ls[i], vs[i])
  {
    seq(|ls|, i requires 0 <= i < |ls| => DecodeLeaf(get, parseFloat, ls[i], vs[i]))
  }

  /**
    Reference decoder over a flat list of leaf fields: `DecodeLeaf` on each
    in turn, stopping at the first error.
   */
  function DecodeFlat(get: Getter, parseFloat: FloatParser, ls: seq<FieldDecl>, vs: seq<Value>)
    : (r: (seq<Value>, Option<Error>))
    requires |ls| == |vs|
    requires forall i :: 0 <= i < |ls| ==> !ls[i].kind.Struct?
    ensures |r.0| == |vs|
    ensures r.1.Some? ==> r.1.value.SetFailed?
  {
    var os := Outcomes(get, parseFloat, ls, vs);
    SettleFailFast(os, vs);
    Settle(os, vs)
  }

  /** The position of the first leaf whose decoding fails, or the number of leaves when none does. */
  function FirstFailure(get: Getter, parseFloat: FloatParser, ls: seq<FieldDecl>, vs: seq<Value>): (j: nat)
    requires |ls| == |vs|
    requires forall i :: 0 <= i < |ls| ==> !ls[i].kind.Struct?
    ensures j <= |ls|
    ensures forall i :: 0 <= i < j ==> DecodeLeaf(get, parseFloat, ls[i], vs[i]).1.None?
    ensures j < |ls| ==> DecodeLeaf(get, parseFloat, ls[j], vs[j]).1.Some?
  {
    FirstError(Outcomes(get, parseFloat, ls, vs))
  }

  /**
    The reference decoder is fail-fast: with `j` the first failing leaf,
    leaves before `j` hold their decoded values, leaf `j` and all later
    leaves keep theirs, and the error is leaf `j`'s (none when no leaf fails).
   */
  lemma DecodeFlatFailFast(get: Getter, parseFloat: FloatParser, ls: seq<FieldDecl>, vs: seq<Value>)
    requires |ls| == |vs|
    requires forall i :: 0 <= i < |ls| ==> !ls[i].kind.Struct?
    ensures var r := DecodeFlat(get, parseFloat, ls, vs);
      var j := FirstFailure(get, parseFloat, ls, vs);
      && (forall i :: 0 <= i < j ==> r.0[i] == DecodeLeaf(get, parseFloat, ls[i], vs[i]).0)
      && (forall i :: j <= i < |vs| ==> r.0[i] == vs[i])
      && r.1 == (if j < |ls| then DecodeLeaf(get, parseFloat, ls[j], vs[j]).1 else None)
  {
    SettleFailFast(Outcomes(get, parseFloat, ls, vs), vs);
  }

  /** Deciding leaves one by one commutes with concatenating leaf lists. */
  lemma OutcomesAppend(get: Getter, parseFloat: FloatParser,
                       l1: seq<FieldDecl>, v1: seq<Value>, l2: seq<FieldDecl>, v2: seq<Value>)
    requires |l1| == |v1| && |l2| == |v2|
    requires forall i :: 0 <= i < |l1| ==> !l1[i].kind.Struct?
    requires forall i :: 0 <= i < |l2| ==> !l2[i].kind.Struct?
    ensures Outcomes(get, parseFloat, l1 + l2, v1 + v2) ==
      Outcomes(get, parseFloat, l1, v1) + Outcomes(get, parseFloat, l2, v2)
  {
    var ls, vs := l1 + l2, v1 + v2;
    forall i | |l1| <= i < |ls|
      ensures ls[i] == l2[i - |l1|] && vs[i] == v2[i - |l1|]
    {
    }
  }

  /** Decoding a concatenation of leaf lists decodes the first, then the second only if the first succeeded. */
  lemma DecodeFlatAppend(get: Getter, parseFloat: FloatParser,
                         l1: seq<FieldDecl>, v1: seq<Value>, l2: seq<FieldDecl>, v2: seq<Value>)
    requires |l1| == |v1| && |l2| == |v2|
    requires forall i :: 0 <= i < |l1| ==> !l1[i].kind.Struct?
    requires forall i :: 0 <= i < |l2| ==> !l2[i].kind.Struct?
    ensures var a := DecodeFlat(get, parseFloat, l1, v1);
      DecodeFlat(get, parseFloat, l1 + l2, v1 + v2) ==
        if a.1.Some? then (a.0 + v2, a.1)
        else var b := DecodeFlat(get, parseFloat, l2, v2); (a.0 + b.0, b.1)
  {
    OutcomesAppend(get, parseFloat, l1, v1, l2, v2);
    SettleAppend(Outcomes(get, parseFloat, l1, v1), v1, Outcomes(get, parseFloat, l2, v2), v2);
  }

  /** A single leaf decodes exactly as `DecodeLeaf` decodes it. */
  lemma DecodeFlatOne(get: Getter, parseFloat: FloatParser, d: FieldDecl, v: Value)
    requires !d.kind.Struct?
    ensures DecodeFlat(get, parseFloat, [d], [v]) == ([DecodeLeaf(get, parseFloat, d, v).0], DecodeLeaf(get, parseFloat, d, v).1)
  {
    var o := DecodeLeaf(get, parseFloat, d, v);
    var os := Outcomes(get, parseFloat, [d], [v]);
    assert os == [o];
    assert os[1..] == [] && [v][1..] == [];
    assert Settle(os[1..], [v][1..]) == ([], None);
    assert [o.0] + [] == [o.0];
    assert DecodeFlat(get, parseFloat, [d], [v]) == Settle(os, [v]);
  }

  /**
    Nested structs decode as if flattened: the leaves of the decoded struct
    are what the reference decoder makes of the original leaves, and the two
    report the same error. Keys are looked up by each leaf's own tag at any
    depth.
   */
  lemma {:induction false} DecodeIsFlatDecode(get: Getter, parseFloat: FloatParser, decls: seq<FieldDecl>, vals: seq<Value>)
    requires FieldsHaveKinds(vals, decls)
    requires NestedStructsExported(decls)
    ensures var (vs, e) := DecodeFields(get, parseFloat, decls, vals);
      var (fvs, fe) := DecodeFlat(get, parseFloat, Leaves(decls), LeafValues(decls, vals));
      LeafValues(decls, vs) == fvs && e == fe
    decreases decls
  {
    if decls != [] {
      var d := decls[0];
      var (v0, e0) := DecodeField(get, parseFloat, d, vals[0]);
      var (vs, e) := DecodeFields(get, parseFloat, decls, vals);
      var l1 := if d.kind.Struct? then Leaves(d.kind.fields) else [d];
      var w1 := if d.kind.Struct? then LeafValues(d.kind.fields, vals[0].fields) else [vals[0]];
      var u1 := if d.kind.Struct? then LeafValues(d.kind.fields, v0.fields) else [v0];
      assert Leaves(decls) == l1 + Leaves(decls[1..]);
      assert LeafValues(decls, vals) == w1 + LeafValues(decls[1..], vals[1..]);
      // The first field on its own behaves like the reference decoder on its leaves.
      if d.kind.Struct? {
        StructFieldsTyped(vals[0], d.kind);
        DecodeIsFlatDecode(get, parseFloat, d.kind.fields, vals[0].fields);
        var (inner, ie) := DecodeFields(get, parseFloat, d.kind.fields, vals[0].fields);
        assert v0 == StructV(inner) && e0 == ie;
        assert l1 == Leaves(d.kind.fields) && w1 == LeafValues(d.kind.fields, vals[0].fields);
        assert LeafValues(d.kind.fields, inner) == DecodeFlat(get, parseFloat, l1, w1).0;
        assert ie == DecodeFlat(get, parseFloat, l1, w1).1;
        assert u1 == LeafValues(d.kind.fields, inner);
      } else {
        DecodeFlatOne(get, parseFloat, d, vals[0]);
        assert DecodeField(get, parseFloat, d, vals[0]) == DecodeLeaf(get, parseFloat, d, vals[0]);
      }
      assert DecodeFlat(get, parseFloat, l1, w1).0 == u1 && DecodeFlat(get, parseFloat, l1, w1).1 == e0;
      DecodeFlatAppend(get, parseFloat, l1, w1, Leaves(decls[1..]), LeafValues(decls[1..], vals[1..]));
      if e0.Some? {
        assert vs == [v0] + vals[1..];
        assert vs[1..] == vals[1..];
        assert LeafValues(decls, vs) == u1 + LeafValues(decls[1..], vals[1..]);
      } else {
        DecodeIsFlatDecode(get, parseFloat, decls[1..], vals[1..]);
        var (rest, _) := DecodeFields(get, parseFloat, decls[1..], vals[1..]);
        assert vs == [v0] + rest;
        assert vs[1..] == rest;
        assert LeafValues(decls, vs) == u1 + LeafValues(decls[1..], rest);
      }
    }
  }

  // ---------------------------------------------------------------------
  // Properties of decoding

  /**
    Fail-fast at any depth: with `j` the first leaf (in declaration order,
    nested structs flattened) whose value fails to coerce, every leaf before
    `j` holds its decoded value, leaf `j` and every later leaf keep their old
    values, and the error returned is leaf `j`'s `SetFailed`. With no failing
    leaf there is no error and every leaf is decoded.
   */
  lemma DecodeFailFast(get: Getter, parseFloat: FloatParser, decls: seq<FieldDecl>, vals: seq<Value>)
    requires FieldsHaveKinds(vals, decls)
    requires NestedStructsExported(decls)
    ensures var (vs, e) := DecodeFields(get, parseFloat, decls, vals);
      var ls := Leaves(decls);
      var before := LeafValues(decls, vals);
      var after := LeafValues(decls, vs);
      var j := FirstFailure(get, parseFloat, ls, before);
      && (forall i :: 0 <= i < j ==> after[i] == DecodeLeaf(get, parseFloat, ls[i], before[i]).0)
      && (forall i :: j <= i < |after| ==> after[i] == before[i])
      && (e.None? <==> j == |ls|)
      && (j < |ls| ==> e == DecodeLeaf(get, parseFloat, ls[j], before[j]).1 && e.value.SetFailed?)
  {
    DecodeIsFlatDecode(get, parseFloat, decls, vals);
    DecodeFlatFailFast(get, parseFloat, Leaves(decls), LeafValues(decls, vals));
  }

  /**
    A leaf whose tag is absent or "-", or that is unexported, keeps its value
    whatever the getter returns.
   */
  lemma UnboundLeavesUnchanged(get: Getter, parseFloat: FloatParser, decls: seq<FieldDecl>, vals: seq<Value>, i: nat)
    requires FieldsHaveKinds(vals, decls)
    requires NestedStructsExported(decls)
    requires i < |Leaves(decls)|
    requires !Bound(Leaves(decls)[i].tag) || !Leaves(decls)[i].exported
    ensures LeafValues(decls, DecodeFields(get, parseFloat, decls, vals).0)[i] == LeafValues(decls, vals)[i]
  {
    DecodeIsFlatDecode(get, parseFloat, decls, vals);
    DecodeFlatFailFast(get, parseFloat, Leaves(decls), LeafValues(decls, vals));
  }

  /** The keys the decoder may look up: the bound tags of exported leaves. */
  function BoundKeys(decls: seq<FieldDecl>): set<string>
  {
    var ls := Leaves(decls);
    set i | 0 <= i < |ls| && Bound(ls[i].tag) && ls[i].exported :: ls[i].tag
  }

  lemma DecodeFlatReadsOnlyBoundKeys(g1: Getter, g2: Getter, parseFloat: FloatParser,
                                     ls: seq<FieldDecl>, vs: seq<Value>)
    requires |ls| == |vs|
    requires forall i :: 0 <= i < |ls| ==> !ls[i].kind.Struct?
    requires forall i :: 0 <= i < |ls| && Bound(ls[i].tag) && ls[i].exported ==> g1(ls[i].tag) == g2(ls[i].tag)
    ensures DecodeFlat(g1, parseFloat, ls, vs) == DecodeFlat(g2, parseFloat, ls, vs)
  {
    forall i | 0 <= i < |ls|
      ensures DecodeLeaf(g1, parseFloat, ls[i], vs[i]) == DecodeLeaf(g2, parseFloat, ls[i], vs[i])
    {
    }
    assert Outcomes(g1, parseFloat, ls, vs) == Outcomes(g2, parseFloat, ls, vs);
  }

  /**
    A field with an absent or "-" tag, or an unexported one, is never read:
    two getters that agree on the bound keys decode to the same struct and
    the same error.
   */
  lemma DecodeReadsOnlyBoundKeys(g1: Getter, g2: Getter, parseFloat: FloatParser, decls: seq<FieldDecl>, vals: seq<Value>)
    requires FieldsHaveKinds(vals, decls)
    requires NestedStructsExported(decls)
    requires forall k :: k in BoundKeys(decls) ==> g1(k) == g2(k)
    ensures DecodeFields(g1, parseFloat, decls, vals) == DecodeFields(g2, parseFloat, decls, vals)
  {
    var ls := Leaves(decls);
    forall i | 0 <= i < |ls| && Bound(ls[i].tag) && ls[i].exported
      ensures g1(ls[i].tag) == g2(ls[i].tag)
    {
      assert ls[i].tag in BoundKeys(decls);
    }
    DecodeIsFlatDecode(g1, parseFloat, decls, vals);
    DecodeIsFlatDecode(g2, parseFloat, decls, vals);
    DecodeFlatReadsOnlyBoundKeys(g1, g2, parseFloat, ls, LeafValues(decls, vals));
    LeavesDetermineRecord(decls, DecodeFields(g1, parseFloat, decls, vals).0, DecodeFields(g2, parseFloat, decls, vals).0);
  }

  /**
    Default preservation: a getter that has nothing for any key changes no
    field and reports no error, so values the caller put in beforehand survive.
   */
  lemma {:induction false} EmptyGetterKeepsDefaults(get: Getter, parseFloat: FloatParser, decls: seq<FieldDecl>, vals: seq<Value>)
    requires forall k :: get(k) == ""
    requires FieldsHaveKinds(vals, decls)
    requires NestedStructsExported(decls)
    ensures DecodeFields(get, parseFloat, decls, vals) == (vals, None)
    decreases decls
  {
    if decls != [] {
      if decls[0].kind.Struct? {
        EmptyGetterKeepsDefaults(get, parseFloat, decls[0].kind.fields, vals[0].fields);
      }
      EmptyGetterKeepsDefaults(get, parseFloat, decls[1..], vals[1..]);
      assert vals == [vals[0]] + vals[1..];
    }
  }
}
