/**
 * `#[derive(FormatArgs)]`: classifies the struct's shape and assembles the
 * four function bodies of the generated impl.
 */
module Derive {
  import opened Wrappers
  import opened Syntax
  import opened Generated
  import opened Usize

  /** Prefix of the name of the dummy constant that wraps the generated impl. */
  const DummyPrefix: string := "_IMPL_FORMAT_ARGS_FOR_"

  /** The dummy constant's name: the prefix followed by the struct's name, which it gives back. */
  function DummyIdent(ident: string): (r: string)
    ensures |r| == |DummyPrefix| + |ident|
    ensures r[..|DummyPrefix|] == DummyPrefix && r[|DummyPrefix|..] == ident
  {
    DummyPrefix + ident
  }

  /** Two structs with different names get different dummy constants. */
  lemma DummyIdentInjective(a: string, b: string)
    requires DummyIdent(a) == DummyIdent(b)
    ensures a == b
  {
  }

  /** Field `i` is the first field called `name`. */
  predicate FirstWithName(named: seq<(string, Ty)>, name: string, i: nat) {
    i < |named| && named[i].0 == name &&
    forall j :: 0 <= j < i ==> named[j].0 != name
  }

  /**
   * The arms of `validate_name` for a named struct: matching them on `name`
   * gives `Some(i)` exactly when field `i` is the first field called `name`,
   * and `None` exactly when no field is.
   */
  function NameArms(named: seq<(string, Ty)>): (arms: seq<Arm<string, nat>>)
    ensures |arms| == |named|
    ensures forall name :: Select(arms, name).None? <==>
      forall i :: 0 <= i < |named| ==> named[i].0 != name
    ensures forall name, i: nat :: Select(arms, name) == Some(i) <==> FirstWithName(named, name, i)
  {
    var arms := seq(|named|, i requires 0 <= i < |named| => Arm(named[i].0, i));
    NameArmsSelect(named, arms);
    arms
  }

  /** Literal arm `i` is field `i`'s name and yields `i`; selecting among them finds the first field of that name. */
  lemma NameArmsSelect(named: seq<(string, Ty)>, arms: seq<Arm<string, nat>>)
    requires |arms| == |named|
    requires forall i :: 0 <= i < |arms| ==> arms[i] == Arm(named[i].0, i)
    ensures forall name :: Select(arms, name).None? <==>
      forall i :: 0 <= i < |named| ==> named[i].0 != name
    ensures forall name, i: nat :: Select(arms, name) == Some(i) <==> FirstWithName(named, name, i)
  {
    forall name, i: nat
      ensures Select(arms, name) == Some(i) <==> FirstWithName(named, name, i)
    {
      NameArmsSelectAt(named, arms, name, i);
    }
  }

  lemma NameArmsSelectAt(named: seq<(string, Ty)>, arms: seq<Arm<string, nat>>, name: string, i: nat)
    requires |arms| == |named|
    requires forall i :: 0 <= i < |arms| ==> arms[i] == Arm(named[i].0, i)
    ensures Select(arms, name) == Some(i) <==> FirstWithName(named, name, i)
  {
    if FirstWithName(named, name, i) {
      assert FirstAt(arms, name, i);
      SelectFound(arms, name, i);
    }
    if Select(arms, name) == Some(i) {
      SelectWitness(arms, name);
      var k: nat :| FirstAt(arms, name, k) && arms[k].body == Select(arms, name).value;
      assert k == i;
    }
  }

  /**
   * `build_fields`: the emitted match takes, on any index below the field
   * count, the projection of that field at its declared type (by name, or by
   * position), and panics with "bad index" on every other index.
   */
  function BuildFields(fields: seq<Field>): (d: Dispatch<Projection>)
    ensures d.Match? && |d.arms| == |fields|
    ensures forall index: nat ::
      Run(d, index) ==
        if index < |fields| then Returns(Projection(fields[index].ty, MemberOf(index, fields[index])))
        else Panics(BadIndex(index))
  {
    var arms := seq(|fields|, i requires 0 <= i < |fields| => Arm(i, Projection(fields[i].ty, MemberOf(i, fields[i]))));
    RunEnumeratedAll(arms);
    Match(arms)
  }

  /** `implement`: rejects enums, otherwise builds the impl for the struct's shape. */
  function Implement(ast: DeriveInput): (r: Outcome<Impl>)
    ensures r.Panics? <==> ast.body.Enum?
    ensures r.Panics? ==> r.fault == NotForEnums
    ensures r.Returns? ==>
      r.value.dummy == DummyIdent(ast.ident) && r.value.ident == ast.ident &&
      r.value.generics == ast.generics
  {
    match ast.body
    case Enum(_) => Panics(NotForEnums)
    case Struct(shape) =>
      var dummy := DummyIdent(ast.ident);
      var (validateName, validateIndex, getChild, asUsize) :=
        match shape
        case Named(named) =>
          (MatchName(NameArms(named)), FalseConst,
           BuildFields(FieldsOf(shape)), UsizeTable(ast, FieldsOf(shape)))
        case Tuple(types) =>
          (NoneConst, LessThan(|FieldsOf(shape)|),
           BuildFields(FieldsOf(shape)), UsizeTable(ast, FieldsOf(shape)))
        case Unit =>
          (NoneConst, FalseConst, AlwaysPanic, AlwaysPanic);
      Returns(Impl(dummy, ast.ident, ast.generics, validateName, validateIndex, getChild, asUsize))
  }
}
