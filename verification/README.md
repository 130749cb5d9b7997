# chi-route query binding and route helpers, in Dafny

This project models the two pure parts of the Go package `route` (gdey/chi-route):

- **The query binding engine** (`query.go`). It maps a flat string key/value
  store onto a Go struct through the struct's `query:"key"` field tags.
  - `ParseQuery` fills a struct from a getter. It recurses into struct-typed
    fields, skips untagged, `"-"`-tagged, unsettable and absent fields, and
    stops at the first value it cannot coerce.
  - `CreateQuery` writes each tagged, non-zero field of a struct to a setter
    as `tag -> "%v"`, following pointer fields through every level.
  - `valForKind` and `setValue` turn one string into a value of a field's
    type, using `strconv`'s base-0 integer syntax and its boolean literals.
- **The route pattern helpers** (`route.go`): `Token.String` (a token's
  parameter name), `Token.Token` (its `{...}` placeholder), and
  `Join` / `Pattern`, which build chi path patterns.

Go reflection is replaced by explicit data:
- A type is a `Kind`. A struct type lists its fields as
  `FieldDecl(tag, exported, kind)`.
- A runtime value is a `Value`, typed by `HasKind`.
- The getter is a total function `string -> string`.
- The setter is the ordered sequence of `(key, value)` writes it receives.
- Decoding returns the updated struct together with an optional error, because
  fields set before a failure stay set.

Files:
- `results.dfy`: `Option` and `Result`.
- `values.dfy`: kinds, values, zero values and integer ranges.
- `strconv.dfy`: the parts of Go's `strconv` the engine relies on: `ParseInt`,
  `ParseUint`, `ParseBool` and decimal formatting. The integer parsers follow
  Go's digit loop and are proved equal to an independent definition of base-0
  literals.
- `coerce.dfy`: `valForKind` and `setValue`.
- `decode.dfy`: `ParseQuery`, plus a reference decoder over a struct's
  flattened leaf fields, proved to agree with the nested traversal.
- `encode.dfy`: `CreateQuery` and its pointer chase.
- `roundtrip.dfy`: encoding and then decoding gives back the record.
- `route.dfy`: `Token.String`, `Token.Token`, `Join` and `Pattern`.

Some parts are parameters rather than code:
- Floating-point parsing is a parameter `FloatParser`, from text and a 32-bit
  flag to IEEE bits or a `strconv` error.
- Float formatting is a parameter `FloatFormatter`.
- A floating-point value is kept as its bit pattern, which is all that
  reflection's zero test looks at.

## Model

| member | source | states |
|---|---|---|
| Strconv.ParseInt | query.go:37-55 | Succeeds exactly when the text is a base-0 signed literal (sign, then `0b`/`0o`/`0x`/leading-`0` octal/decimal digits) whose value fits the signed bit width, and then yields that value |
| Strconv.ParseUint | query.go:57-75 | Succeeds exactly when the text is a base-0 unsigned literal whose value fits the unsigned bit width, and then yields that value; a syntax error means there is no literal at all |
| Strconv.SignedResult | query.go:37-55 | The magnitude check after the sign: it accepts a non-negative magnitude below half the range and a negative one up to half, negating for `-`, and passes a syntax error on unchanged |
| Strconv.SignedResultMatches | query.go:37-55 | The magnitude check accepts exactly the signed literals inside the signed range of the width, with their value |
| Strconv.ParseBool | query.go:33-35 | Only a fixed list of spellings is accepted: a true one starts with `1`, `t` or `T`, a false one with `0`, `f` or `F`, none is longer than five characters, and any other text is a syntax error |
| Strconv.ParseIntFormatInt | query.go:37-55 | Every integer in range of a width, written in decimal, parses back to itself at that width |
| Strconv.ParseUintFormatUint | query.go:57-75 | Every non-negative integer in range of a width, written in decimal, parses back to itself |
| Strconv.ParseBoolFormatBool | query.go:33-35 | `true`/`false` as `%v` writes them parse back to the same boolean |
| Strconv.ParseBoolIsCaseSensitive | query.go:33-35 | Boolean parsing accepts only its fixed literal list: mixed case such as `tRUE` and words such as `yes` are syntax errors |
| Strconv.FormatUint | query.go:149 | The decimal text of a number is non-empty, all digits, and starts with `0` only for zero |
| Strconv.FormatInt | query.go:149 | The decimal text of an integer is non-empty and starts with `-` exactly for negative integers |
| Coerce.ValForKind | query.go:17-91 | A successful coercion has the target type. It fails with `Unsupported(base type)` exactly for types outside bool, integers, floats, string and pointers to them. An integer coercion succeeds iff the literal is in range of the width, and yields it. A string passes through unchanged. Bool and float coercions succeed iff the parser does, and yield the parser's boolean or bits |
| Coerce.PointerCoercion | query.go:24-31 | Coercing into `n` levels of pointer gives the base coercion's value behind `n` fresh non-nil pointers, or the base coercion's error |
| Coerce.SetValue | query.go:93-101 | Succeeds exactly when the coercion does, and then stores exactly the coerced value, of the field's type; a failure is the coercion's error wrapped once in `SetFailed` |
| Decode.DecodeLeaf | query.go:181-197 | A field changes or fails only when its tag binds it, it is exported and the getter has a non-empty value for its key. In that case it takes `setValue`'s value, or keeps its old value and reports `setValue`'s `SetFailed` error |
| Decode.DecodeField | query.go:172-197 | Decoding one field keeps its type, and any error it reports is a `SetFailed` error |
| Decode.DecodeFields | query.go:170-199 | The field loop keeps every field's type, and the only error it reports is a `SetFailed` error |
| Decode.ParseQuery | query.go:155-200 | A nil or non-pointer argument gives `NonPointer`, a pointer to a non-struct gives `Unsupported(pointee type)`, both with nothing changed; otherwise the same pointer comes back, to a struct of the same type, and any error is a `SetFailed` error |
| Decode.DecodeFlat | query.go:170-199 | Reference decoder over the leaf fields: one value per leaf, and any error is a `SetFailed` error |
| Decode.DecodeFlatFailFast | query.go:170-199 | The reference decoder is fail-fast: leaves before the first failing leaf take their decoded values, that leaf and all later ones keep their values, and the error is that leaf's; no error exactly when no leaf fails |
| Decode.SettleFailFast | query.go:170-199 | Applying per-field outcomes in loop order with an early `return err` is fail-fast: fields before the first error take their outcome, that field and all later ones keep their values, and the error is that field's; no error exactly when no outcome has one |
| Decode.SettleAppend | query.go:170-199 | The loop over `a + b` runs the loop over `a`, then the loop over `b` only if `a` ended without error; otherwise `b`'s fields keep their values |
| Decode.DecodeFlatAppend | query.go:170-199 | The reference decoder over a concatenation of leaf lists decodes the first list, then the second only if the first succeeded |
| Decode.DecodeFlatOne | query.go:181-197 | A single leaf is decoded by the reference decoder exactly as one iteration of the loop decodes it |
| Decode.DecodeIsFlatDecode | query.go:172-180 | Decoding nested structs is the same, leaf by leaf, as decoding the flattened list of leaf fields in declaration order (every struct field is entered, whatever its tag), with the same error |
| Decode.LeavesDetermineRecord | query.go:172-180 | Two well-typed records with equal leaf values are equal, so the flat view loses nothing |
| Decode.DecodeFailFast | query.go:170-199 | Leaves before the first failing leaf take their decoded values, that leaf and all after it keep their old values, and the error is that leaf's `SetFailed` error; no error exactly when no leaf fails |
| Decode.UnboundLeavesUnchanged | query.go:181-188 | A leaf field that is untagged, tagged `"-"` or unexported is never changed by decoding |
| Decode.DecodeReadsOnlyBoundKeys | query.go:172-192 | Decoding depends only on what the getter returns for the keys bound in the struct: two getters agreeing there decode identically |
| Decode.EmptyGetterKeepsDefaults | query.go:190-193 | A getter with nothing for any key leaves every field at its prior value and reports no error |
| Encode.Resolve | query.go:132-136 | Following every pointer level of a field reaches its base type, a value of that type when no nil pointer was crossed, and nothing once one was |
| Encode.ResolveBoxed | query.go:132-136 | A value behind `n` non-nil pointers resolves to that value at its base type |
| Encode.ResolveNil | query.go:132-136 | A nil pointer anywhere in the chain resolves to no value, which the encoder skips |
| Encode.ResolveAsWritten | query.go:124-136 | The pointer chase exactly as written: whenever it reaches a type, that is the field's base type |
| Encode.NilDoublePointerPanics | query.go:132-136 | As written, a field of type `**T` whose outer pointer is nil makes the chase panic |
| Encode.ResolveMatchesSource | query.go:124-136 | Wherever the written chase does not panic, the corrected chase reaches the same type and value |
| Encode.SkippedByEncoder | query.go:125-131 | The kind switch skips exactly the kinds other than bool, integers, floats, string, the opaque kinds and pointers |
| Encode.Emits | query.go:124-147 | A written field has a binding tag, a non-zero value and a base type the switch does not skip; for a non-pointer field, these three conditions are exactly when it is written |
| Encode.Render | query.go:149 | The `%v` text of a bool or integer is text that `strconv` parses back to the same value; a string is written as itself; an opaque value as its own text |
| Encode.FieldWrite | query.go:138-149 | The written pair's key is the field's own tag, which binds it |
| Encode.Emitting | query.go:120-147 | The positions of the written fields: exactly the fields whose resolved type is not skipped, whose tag binds them and whose resolved value exists and is non-zero, in increasing field order |
| Encode.CollectAtPositions | query.go:120-150 | The loop's output is, one for one and in order, the outputs of the fields it does not skip |
| Encode.EncodeFields | query.go:120-150 | The writes are one pair per written field, in field order and nothing else; each pair's key is that field's tag, which binds it, and its text is the `%v` text of the value reached through the field's pointers |
| Encode.ZeroNeverEmits | query.go:143-147 | A field holding its zero value is never written |
| Encode.ZeroFieldsWriteNothing | query.go:143-147 | A struct whose fields all hold zero values produces no writes |
| Encode.CreateQuery | query.go:106-152 | Nil or zero input gives no writes and no error. Otherwise, after one dereference, a non-struct gives `Unsupported(its type)` and no writes, and a struct gives no error and exactly its field loop's writes. Every written key is a binding tag |
| Encode.CreateQueryPointer | query.go:106-150 | A non-nil pointer to a struct, as query_test.go passes it, writes that struct's field loop's writes and reports no error |
| Encode.CreateQueryStruct | query.go:109-150 | A non-zero struct argument gives its field loop's writes and no error |
| Encode.SingleFieldWrite | query.go:120-152 | A struct whose only field is written produces exactly that field's pair and no error |
| Encode.PointerToPointerUnsupported | query.go:112-119 | A pointer to a pointer to a struct is dereferenced only once, so it is refused as `Unsupported(pointer to struct)` |
| Encode.DoublePointerFieldExample | query_test.go:295-309 | An unexported `**int` field tagged `h` holding 5 is written as `h -> "5"`: the encoder follows both pointer levels and does not look at exportedness |
| RoundTrip.ScalarReadsBack | query.go:145-149 | A non-zero exported bool, integer or string field is written, with non-empty text that `setValue` coerces back to the same value |
| RoundTrip.StoreHoldsFields | query.go:138-149 | After encoding a record with distinct tags, the store answers each field's tag with that field's written text, or nothing for a zero field |
| RoundTrip.DecodeAnswered | query.go:170-199 | When the getter answers each field's tag with the text encoding left for it, decoding into a zero record yields the original field values and no error |
| RoundTrip.EncodeStruct | query.go:106-150 | Encoding a struct argument, zero or not, gives its field loop's writes and no error |
| RoundTrip.ParseQueryStruct | query.go:155-170 | `ParseQuery` through a non-nil pointer to a struct returns the same pointer to the struct its field loop produced, with the loop's error |
| RoundTrip.RoundTrip | query.go:106-200 | For a record of exported, distinctly tagged bool/integer/string fields, `ParseQuery` over the writes of `CreateQuery` fills a zero record back to the original, with no error on either side |
| Route.IndexByte | route.go:30 | The position of the first occurrence of the character, or -1 exactly when it does not occur |
| Route.TokenName | route.go:28-36 | A token's name is a prefix of it without `:`, and is either the whole token or stops right at its first `:` |
| Route.TokenNameIdempotent | route.go:28-36 | Taking the name of a name changes nothing |
| Route.TokenPattern | route.go:38-40 | The placeholder is the raw token, `:` suffix included, between `{` and `}` |
| Route.PlaceholderNamesParameter | route.go:28-40 | Inside its braces the placeholder starts with the name `Token.String` reports, followed by the `:` of a match pattern or, for a plain token, by the closing brace |
| Route.RenderElement | route.go:50-59 | A token element contributes its braced placeholder, a string itself, and any other element its rendered text |
| Route.StringsJoin | route.go:61 | The joined text is "" for no elements; otherwise it starts with the first element and is one separator per gap longer than the elements together |
| Route.Join | route.go:47-62 | No elements give ""; otherwise the path starts with the separator; its length is the number of elements times the separator's length plus the rendered elements' total length |
| Route.JoinedIsPrefixed | route.go:48-61 | Joining after the leading empty element gives each rendered element preceded by the separator, concatenated |
| Route.JoinAppend | route.go:47-62 | Joining a concatenation of element lists is joining each list and concatenating the results |
| Route.JoinSingle | route.go:50-54 | A single element joins to the separator followed by its text; a token contributes its braced placeholder, not its name |
| Route.Pattern | route.go:43-45 | A pattern with no elements is ""; any other pattern starts with `/` |

## Left out

- Floating-point parsing and formatting (query.go:77-83, and `%v` at query.go:149 for floats) are parameters of the model. Floats are therefore not part of the round trip.
- Strconv.ParseInt, Strconv.ParseUint: Go's `_` digit separators in base-0 literals are not accepted. A literal such as `1_000` is a syntax error in the model.
- Strconv.ParseUint: bit sizes 1 to 64 are modelled, covering the 8, 16, 32 and 64 the engine passes. Plain `uint` is taken to be 64 bits wide. Bit size 0 (the platform width) is not modelled.
- Strconv.ParseInt: bit sizes 2 to 64 are modelled, covering the 8, 16, 32 and 64 the engine passes. Bit size 1 is not modelled, and neither is bit size 0. Plain `int` is taken to be 64 bits wide.
- The `Func`/`Num` fields and message text of `strconv.NumError`, and the `Error()` text in errors.go. Only the error variants are kept.
- `%v` rendering of named types with a `String` method. The encoder writes values as their basic kind prints them. A map, `uintptr` or unsafe-pointer field is written with opaque text carried in its value.
- Reflection mechanics: `reflect.Value`, `Addr().Interface()` and `CanSet`. They are replaced by field declarations with an `exported` flag.
- Decode.DecodeLeaf: field types are taken to be unnamed types. `valForKind` builds values of the unnamed types `bool`, `int`, `string` and so on (query.go:34-86), and `setValue` stores them with `reflect.Value.Set` (query.go:99, and query.go:30 for pointers). For a field of a named type such as `type Level int`, Go panics because the value is not assignable. The model has no named types and decodes such a field.
- Decode.ParseQuery: Go panics when a nested struct field is unexported (query.go:175). The model requires every nested struct field to be exported instead.
- `Token.AsInt32`, `Token.AsInt64` and `Token.Get` (route.go:19-26): they read a parameter from an `*http.Request` through the external chi router.
- `fmt.Stringer` and default `%v` rendering of `Join` elements (route.go:55-58): such an element is given as its already rendered text.
- Strconv.ParseBool: `strconv.ParseBool` accepts exactly twelve spellings, matched case-sensitively, and the model keeps that list. No case-insensitive matching is modelled, because the code has none.
- Encode.CreateQuery: the model is built on the corrected pointer chase `Encode.Resolve`. A field whose pointer chain holds a nil pointer above its last level is skipped, where query.go:132-136 panics (see "## Findings"; `Encode.ResolveAsWritten` models the panic). Every other field is written as the code writes it, and the chase follows every pointer level of a field, as query.go:132-136 does.
- The tests' `errors.As` and `reflect.DeepEqual` plumbing (query_test.go). There is no concurrency or I/O in the modelled code.

## Findings

| source | as written | input that shows it | evidently intended | confidence | as-written member | corrected member |
|---|---|---|---|---|---|---|
| query.go:132-136 | The pointer chase calls `fval.Elem()` before looking at the next type. Once a nil pointer has been crossed, `fval` is the invalid `reflect.Value`, and the next `Elem()` on it panics. This happens before the tag test, so untagged fields are affected too. | A struct with a field `P **int` holding nil and a second field `N int` holding 1 (so the input is not the zero value): `CreateQuery` panics | A nil pointer at any level leaves no value, and the field is skipped like a nil `*int` | not executed | Encode.ResolveAsWritten (Encode.NilDoublePointerPanics) | Encode.Resolve (Encode.ResolveNil) |
