# runtime-fmt-derive: the `FormatArgs` derive, modelled in Dafny

`#[derive(FormatArgs)]` takes a struct and generates an impl of the `FormatArgs`
trait. The runtime format-string engine uses that impl to resolve an argument
reference (`{name}` or `{0}`) to a field. The impl has four functions:

- `validate_name(name) -> Option<usize>` maps a field name to its index;
- `validate_index(index) -> bool` says whether a positional index is usable;
- `get_child::<F>(index)` builds a renderer that projects field `index`;
- `as_usize(index)` builds an accessor that hands field `index` to the runtime's `usize` adapter.

The model has three parts:

- **The input** (`Syntax`): the struct's name, its generics (lifetimes, type parameters, where clause) and its body. The body is an enum or a struct of one of three shapes: named fields, positional fields, or unit.
- **The generated code** (`Generated`): the emitted code as abstract syntax. `validate_name` is a constant `None` or a match over string literals. `validate_index` is a constant `false` or `index < len`. `get_child` and `as_usize` are either a match over index literals with a panicking catch-all, or a bare panic. Functions `ValidateName`, `ValidateIndex`, `GetChild` and `AsUsize` give the meaning of each generated function: a match tries its arms in order, and a panic is the `Panics(BadIndex(index))` outcome.
- **The generators** (`Derive`, `Usize`):
  - `Implement` rejects enums, names the dummy constant, and picks each function body by shape.
  - `BuildFields` produces the `get_child` arms.
  - `UsizeTable` builds the `as_usize` arms, and `Implement` uses it. `BuildUsize` is the same generator in the source's loop form: a method that appends one arm per field, proved equal to `UsizeTable`.

Two plain definitions support these. `Syntax.FieldsOf` is the parser's field list for a shape, which the generators consume. `Generated.ValidateIndex` is what the two emitted `validate_index` bodies (`false` and `index < len`) mean.

`Properties` states what the derived impl does in terms of the struct definition.

For a named struct `validate_index` is the constant `false` (lib.rs:35), so positional access is refused even though `get_child` has one arm per field; `Properties.NamedIndexDisagreement` states it. The arms of the emitted `validate_name` match are tried in order, so were a field name repeated the match would take its first arm; `Properties.NamedValidateName` states this first-match behaviour. Repeated field names do not occur in practice, because the Rust compiler rejects such a struct.

## Model

| member | source | states |
|---|---|---|
| Derive.Implement | runtime-fmt-derive/src/lib.rs:18-63 | panics with the enum message exactly on an enum body; a struct yields an impl for the struct's own name and generics, wrapped in the dummy constant |
| Properties.EnumRejected | runtime-fmt-derive/src/lib.rs:23-26 | an enum body makes the derive panic and produces no impl |
| Properties.StructAccepted | runtime-fmt-derive/src/lib.rs:23-24 | every struct body, whatever its shape, yields an impl |
| Derive.DummyIdent | runtime-fmt-derive/src/lib.rs:28 | the dummy constant's name is `_IMPL_FORMAT_ARGS_FOR_` followed by the struct name, and the struct name can be read back from it |
| Derive.DummyIdentInjective | runtime-fmt-derive/src/lib.rs:28 | structs with different names get different dummy constants |
| Properties.NamedValidateName | runtime-fmt-derive/src/lib.rs:37-47 | named struct: `validate_name(n) == Some(i)` exactly when field `i` is the first field called `n`; were a name repeated, the emitted match would take its first arm |
| Properties.NamedValidateNameNone | runtime-fmt-derive/src/lib.rs:42-47 | named struct: `validate_name(n)` is `None` exactly when no field is called `n` |
| Properties.NamedValidateIndex | runtime-fmt-derive/src/lib.rs:35 | named struct: `validate_index` is false for every index |
| Properties.TupleValidate | runtime-fmt-derive/src/lib.rs:52-55 | tuple struct: `validate_name` is `None` for every name; `validate_index(i)` holds exactly when `i` is below the field count |
| Properties.UnitDescriptor | runtime-fmt-derive/src/lib.rs:57-61 | unit struct: no name and no index is valid, and `get_child` and `as_usize` both panic with "bad index" on every index |
| Properties.GetChildTable | runtime-fmt-derive/src/lib.rs:94-110 | `get_child(i)` projects field `i` (by name, or by position `i`) at its declared type when `i` is below the field count, and panics with "bad index" otherwise |
| Properties.AsUsizeTable | runtime-fmt-derive/src/lib.rs:128-150 | `as_usize(i)` builds field `i`'s accessor, typed `&'__as_usize_inner T` for the field's declared `T`, with the lifetime-extended generics, when `i` is below the field count; every other index panics with "bad index" |
| Properties.ChildAndUsizeAgree | runtime-fmt-derive/src/lib.rs:129-142 | `get_child` and `as_usize` panic on the same indices and otherwise reach the same field at the same type |
| Properties.ValidIndexHasChild | runtime-fmt-derive/src/lib.rs:31-63 | every index `validate_index` accepts has a `get_child` arm projecting that field |
| Properties.ChildAgreesWithValidateIndex | runtime-fmt-derive/src/lib.rs:49-61 | for tuple and unit structs, `get_child` panics exactly on the indices `validate_index` rejects |
| Properties.NamedIndexDisagreement | runtime-fmt-derive/src/lib.rs:32-35 | for a named struct with a field, `validate_index(0)` is false although `get_child(0)` has an arm |
| Properties.ValidNameHasChild | runtime-fmt-derive/src/lib.rs:37-47 | an index that `validate_name(n)` returns is in range, and `get_child` at that index projects the field named `n` |
| Properties.AsUsizeOnlyForUsize | runtime-fmt-derive/src/lib.rs:140 | together with the runtime adapter, an in-range `as_usize(i)` yields an accessor exactly when field `i`'s type passes the `usize` test |
| Properties.WidthNameScenario | runtime-fmt-derive/src/lib.rs:31-47 | `{ width: usize, name: String }`: "width" resolves to 0, "name" to 1, "x" to nothing; `get_child` projects `width` and `name`, and fails past them; only `width` passes the `usize` adapter |
| Properties.PairScenario | runtime-fmt-derive/src/lib.rs:49-56 | `(i32, i32)`: indices 0 and 1 are valid and 2 is not; no name is valid; `get_child(1)` projects `.1` |
| Usize.WithInnerLifetime | runtime-fmt-derive/src/lib.rs:119-125 | the accessor's generics are the struct's generics with `'__as_usize_inner` inserted at position 0; the original lifetimes follow in order, and the type parameters and where clause are unchanged |
| Usize.BuildUsize | runtime-fmt-derive/src/lib.rs:113-151 | the loop emits exactly one arm per field, in order; arm `i` matches literal `i` and defines field `i`'s accessor at its declared type over the lifetime-extended generics |
| Generated.Select | runtime-fmt-derive/src/lib.rs:43-46 | a match over literals falls through to its catch-all exactly when no arm's pattern equals the scrutinee |
| Generated.SelectFound | runtime-fmt-derive/src/lib.rs:43-46 | the match takes the body of the first arm whose pattern equals the scrutinee |
| Generated.SelectWitness | runtime-fmt-derive/src/lib.rs:43-46 | whatever a match selects is the body of the first arm whose pattern equals the scrutinee |
| Generated.RunEnumerated | runtime-fmt-derive/src/lib.rs:102-109 | a match whose arm `i` matches literal `i` takes arm `index` when there is one, and panics with "bad index" otherwise |
| Derive.NameArms | runtime-fmt-derive/src/lib.rs:37-46 | matching the emitted `validate_name` arms on `name` gives `Some(i)` exactly when field `i` is the first field called `name`, and `None` exactly when no field is called `name` |
| Derive.BuildFields | runtime-fmt-derive/src/lib.rs:94-111 | the emitted `get_child` match has one arm per field; on any index below the field count it yields that field's projection at its declared type (by name, or by position), and on every other index it panics with "bad index" |
| Usize.HelperFor | runtime-fmt-derive/src/lib.rs:129-142 | field `i`'s accessor reads that field (`this.name`, or `this.i` for a positional field) and returns a reference of its declared type under `'__as_usize_inner`; its generics are the struct's with that lifetime, bare of attributes and bounds, declared first, and the struct's lifetimes, type parameters and where clause unchanged after it |
| Usize.UsizeTable | runtime-fmt-derive/src/lib.rs:128-150 | the emitted `as_usize` match has one arm per field; on any index below the field count it yields that field's accessor, and on every other index it panics with "bad index" |
| Generated.Run | runtime-fmt-derive/src/lib.rs:102-109 | a `match index` with a panicking catch-all panics with "bad index" exactly when no arm's literal is `index`, and otherwise returns the body of the first arm whose literal is `index`; a bare panic always panics |
| Generated.ValidateName | runtime-fmt-derive/src/lib.rs:75-77 | the generated `validate_name` is `None` when its body is the constant, and otherwise returns the index carried by the first arm whose literal is `name`, or `None` when no arm's literal is `name` |
| Generated.GetChild | runtime-fmt-derive/src/lib.rs:81-85 | the generated `get_child`, when its body is a bare panic, always panics; when it is a match, it panics with "bad index" exactly when no arm's literal is `index`, and otherwise returns the projection of the first arm matching `index` |
| Generated.AsUsize | runtime-fmt-derive/src/lib.rs:86-88 | the generated `as_usize`, when its body is a bare panic, always panics; when it is a match, it panics with "bad index" exactly when no arm's literal is `index`, and otherwise returns the accessor of the first arm matching `index` |

## Left out

- The proc-macro entry point (lib.rs:12-16) is left out. It converts token streams to strings and back and unwraps the parse, which is compiler I/O.
- The `quote!`/`syn` token construction, `split_for_impl`, and the attributes, `extern crate`, `use` lines and impl header around the four functions (lib.rs:65-91) are not modelled as tokens. The model keeps only what they carry: the struct name, its generics and the dummy constant's name, all fields of `Impl`.
- `_runtime_fmt::codegen::combine` is external to this crate. A `get_child` arm is modelled as the field projection it hands to `combine` (the declared type and the accessed member). The rendering `combine` performs, the `FormatTrait` bound check and `Formatter` sinks are left out.
- `_runtime_fmt::codegen::as_usize` is external to this crate as well. It is modelled only by `Generated.UsizeAdapter`, an assumed meaning rather than a proved contract, and its exact type test is the parameter `isUsize`.
- A named struct's fields carry their names by type, because the parser always gives them identifiers. So the `unwrap` at lib.rs:39 cannot fail in the model.
- A positional member `this.0` is `ByPosition(0)` rather than the decimal identifier token `syn::Ident::from(idx)` prints.
- Panic messages are the faults `BadIndex(index)` (standing for "bad index {index}") and `NotForEnums` (standing for "#[derive(FormatArgs)] is not implemented for enums"). They are not rendered as strings.
- Indices are unbounded naturals rather than `usize`. No field count comes near the `usize` range.
- Visibility and attributes of struct fields are not modelled, because none of the generators reads them.
