/**
 * The input of the derive: an abstract view of the parsed struct definition
 * (`syn::DeriveInput`) that the macro receives.
 */
module Syntax {
  import opened Wrappers

  /** A field's declared type, kept as the tokens it was written with. */
  datatype Ty = Ty(tokens: string)

  /** A field as the parser lists it: named fields carry an identifier, positional ones do not. */
  datatype Field = Field(ident: Option<string>, ty: Ty)

  /** The three struct shapes: `struct S { a: A }`, `struct S(A);` and `struct S;`. */
  datatype Shape =
    | Named(named: seq<(string, Ty)>)
    | Tuple(types: seq<Ty>)
    | Unit

  /** The item the derive is attached to: a struct of some shape, or an enum. */
  datatype Body = Struct(shape: Shape) | Enum(variants: seq<string>)

  /** A lifetime parameter such as `'a: 'b`, with its attributes and bounds. */
  datatype LifetimeDef = LifetimeDef(attrs: seq<string>, lifetime: string, bounds: seq<string>)

  /** The generic parameters of the struct: lifetimes, type parameters and where-clause predicates. */
  datatype Generics = Generics(lifetimes: seq<LifetimeDef>, tyParams: seq<string>, whereClause: seq<string>)

  datatype DeriveInput = DeriveInput(ident: string, generics: Generics, body: Body)

  /** The field list of a shape, in declaration order, as the parser hands it to the generators. */
  function FieldsOf(shape: Shape): (fs: seq<Field>)
    ensures shape.Named? ==>
      |fs| == |shape.named| &&
      forall i :: 0 <= i < |fs| ==> fs[i] == Field(Some(shape.named[i].0), shape.named[i].1)
    ensures shape.Tuple? ==>
      |fs| == |shape.types| &&
      forall i :: 0 <= i < |fs| ==> fs[i] == Field(None, shape.types[i])
    ensures shape.Unit? ==> fs == []
  {
    match shape
    case Named(named) => seq(|named|, i requires 0 <= i < |named| => Field(Some(named[i].0), named[i].1))
    case Tuple(types) => seq(|types|, i requires 0 <= i < |types| => Field(None, types[i]))
    case Unit => []
  }
}
