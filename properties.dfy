/**
 * What the generated `FormatArgs` impl does, stated against the struct
 * definition it was derived from.
 */
module Properties {
  import opened Wrappers
  import opened Syntax
  import opened Generated
  import opened Usize
  import opened Derive

  /** Number of fields of a shape. */
  function FieldCount(shape: Shape): nat {
    match shape
    case Named(named) => |named|
    case Tuple(types) => |types|
    case Unit => 0
  }

  /** Reference reading of field `i`: by its name and declared type, or by position `i`. */
  function FieldProjection(shape: Shape, i: nat): Projection
    requires i < FieldCount(shape)
  {
    match shape
    case Named(named) => Projection(named[i].1, ByName(named[i].0))
    case Tuple(types) => Projection(types[i], ByPosition(i))
  }

  /** Deriving for an enum panics and produces no impl. */
  lemma EnumRejected(ast: DeriveInput)
    requires ast.body.Enum?
    ensures Implement(ast) == Panics(NotForEnums)
  {
  }

  /** Deriving for a struct always produces an impl. */
  lemma StructAccepted(ast: DeriveInput)
    requires ast.body.Struct?
    ensures Implement(ast).Returns?
  {
  }

  /**
   * Named struct: `validate_name(name)` is `Some(i)` exactly when field `i` is
   * the first field called `name`; were a name repeated, the emitted match
   * would take its first arm.
   */
  lemma NamedValidateName(
    ast: DeriveInput, d: Impl, named: seq<(string, Ty)>, name: string, i: nat)
    requires ast.body == Struct(Named(named)) && Implement(ast) == Returns(d)
    ensures ValidateName(d, name) == Some(i) <==> FirstWithName(named, name, i)
  {
    assert d.validateName == MatchName(NameArms(named));
  }

  /** Named struct: `validate_name(name)` is `None` exactly when no field is called `name`. */
  lemma NamedValidateNameNone(ast: DeriveInput, d: Impl, named: seq<(string, Ty)>, name: string)
    requires ast.body == Struct(Named(named)) && Implement(ast) == Returns(d)
    ensures ValidateName(d, name) == None <==> forall i :: 0 <= i < |named| ==> named[i].0 != name
  {
    assert d.validateName == MatchName(NameArms(named));
  }

  /** Named struct: `validate_index` is `false` for every index, as the code is written. */
  lemma NamedValidateIndex(ast: DeriveInput, d: Impl, index: nat)
    requires ast.body.Struct? && ast.body.shape.Named? && Implement(ast) == Returns(d)
    ensures !ValidateIndex(d, index)
  {
  }

  /** Tuple struct: no name is valid, and `validate_index(i)` holds exactly for `i < field count`. */
  lemma TupleValidate(ast: DeriveInput, d: Impl, name: string, index: nat)
    requires ast.body.Struct? && ast.body.shape.Tuple? && Implement(ast) == Returns(d)
    ensures ValidateName(d, name) == None
    ensures ValidateIndex(d, index) <==> index < |ast.body.shape.types|
  {
  }

  /** Unit struct: no name and no index is valid, and both dispatchers panic on every index. */
  lemma UnitDescriptor(ast: DeriveInput, d: Impl, name: string, index: nat)
    requires ast.body == Struct(Unit) && Implement(ast) == Returns(d)
    ensures ValidateName(d, name) == None && !ValidateIndex(d, index)
    ensures GetChild(d, index) == Panics(BadIndex(index))
    ensures AsUsize(d, index) == Panics(BadIndex(index))
  {
  }

  /**
   * `get_child` has one arm per field: index `i` projects field `i` (by name
   * if it has one, else by position) at its declared type; any other index
   * panics with "bad index".
   */
  lemma GetChildTable(ast: DeriveInput, d: Impl, index: nat)
    requires ast.body.Struct? && Implement(ast) == Returns(d)
    ensures GetChild(d, index) ==
      if index < FieldCount(ast.body.shape) then Returns(FieldProjection(ast.body.shape, index))
      else Panics(BadIndex(index))
  {
    var shape := ast.body.shape;
    if !shape.Unit? {
      var fs := FieldsOf(shape);
      var arms := BuildFields(fs).arms;
      assert Enumerated(arms);
      RunEnumerated(arms, index);
    }
  }

  /**
   * `as_usize` has one arm per field: index `i` defines an accessor returning
   * `&'__as_usize_inner T` for field `i` of declared type `T`, generic over the
   * struct's generics with the fresh lifetime first; any other index panics.
   */
  lemma AsUsizeTable(ast: DeriveInput, d: Impl, index: nat)
    requires ast.body.Struct? && Implement(ast) == Returns(d)
    ensures AsUsize(d, index) ==
      if index < FieldCount(ast.body.shape) then
        var p := FieldProjection(ast.body.shape, index);
        Returns(UsizeHelper(WithInnerLifetime(ast.generics), InnerLifetime, ast.ident, ast.generics,
                            p.ty, p.member))
      else Panics(BadIndex(index))
  {
    var shape := ast.body.shape;
    if !shape.Unit? {
      var fs := FieldsOf(shape);
      var arms := UsizeTable(ast, fs).arms;
      assert Enumerated(arms);
      RunEnumerated(arms, index);
    }
  }

  /** `get_child` and `as_usize` agree on every index: both panic, or both reach the same field. */
  lemma ChildAndUsizeAgree(ast: DeriveInput, d: Impl, index: nat)
    requires ast.body.Struct? && Implement(ast) == Returns(d)
    ensures GetChild(d, index).Returns? <==> AsUsize(d, index).Returns?
    ensures GetChild(d, index).Returns? ==>
      AsUsize(d, index).value.ty == GetChild(d, index).value.ty &&
      AsUsize(d, index).value.member == GetChild(d, index).value.member
  {
    GetChildTable(ast, d, index);
    AsUsizeTable(ast, d, index);
  }

  /** Every index `validate_index` accepts has a `get_child` arm. */
  lemma ValidIndexHasChild(ast: DeriveInput, d: Impl, index: nat)
    requires ast.body.Struct? && Implement(ast) == Returns(d)
    requires ValidateIndex(d, index)
    ensures GetChild(d, index) == Returns(FieldProjection(ast.body.shape, index))
  {
    GetChildTable(ast, d, index);
  }

  /** For tuple and unit structs, `get_child` panics exactly on the indices `validate_index` rejects. */
  lemma ChildAgreesWithValidateIndex(ast: DeriveInput, d: Impl, index: nat)
    requires ast.body.Struct? && !ast.body.shape.Named? && Implement(ast) == Returns(d)
    ensures GetChild(d, index).Returns? <==> ValidateIndex(d, index)
  {
    GetChildTable(ast, d, index);
  }

  /**
   * For a named struct with a field, `validate_index` rejects index 0 although
   * `get_child` has an arm for it: positional access is not offered.
   */
  lemma NamedIndexDisagreement(ast: DeriveInput, d: Impl)
    requires ast.body.Struct? && ast.body.shape.Named? && |ast.body.shape.named| > 0
    requires Implement(ast) == Returns(d)
    ensures !ValidateIndex(d, 0) && GetChild(d, 0).Returns?
  {
    GetChildTable(ast, d, 0);
  }

  /** A name `validate_name` resolves to `i` is field `i`'s name, and `get_child(i)` projects that field. */
  lemma ValidNameHasChild(ast: DeriveInput, d: Impl, name: string, i: nat)
    requires ast.body.Struct? && Implement(ast) == Returns(d)
    requires ValidateName(d, name) == Some(i)
    ensures i < FieldCount(ast.body.shape)
    ensures GetChild(d, i) == Returns(Projection(ast.body.shape.named[i].1, ByName(name)))
  {
    var shape := ast.body.shape;
    NamedValidateName(ast, d, shape.named, name, i);
    GetChildTable(ast, d, i);
  }

  /**
   * With the runtime adapter in place, `as_usize(i)` yields an accessor for
   * an in-range index exactly when field `i`'s declared type is `usize`.
   */
  lemma AsUsizeOnlyForUsize(ast: DeriveInput, d: Impl, index: nat, isUsize: Ty -> bool)
    requires ast.body.Struct? && Implement(ast) == Returns(d)
    requires index < FieldCount(ast.body.shape)
    ensures AsUsize(d, index).Returns?
    ensures UsizeAdapter(AsUsize(d, index).value, isUsize).Some? <==>
      isUsize(FieldProjection(ast.body.shape, index).ty)
  {
    AsUsizeTable(ast, d, index);
  }

  /** The struct `{ width: usize, name: String }`. */
  lemma WidthNameScenario(d: Impl)
    requires Implement(DeriveInput("Args", Generics([], [], []),
      Struct(Named([("width", Ty("usize")), ("name", Ty("String"))])))) == Returns(d)
    ensures ValidateName(d, "width") == Some(0) && ValidateName(d, "name") == Some(1)
    ensures ValidateName(d, "x") == None
    ensures GetChild(d, 0) == Returns(Projection(Ty("usize"), ByName("width")))
    ensures GetChild(d, 1) == Returns(Projection(Ty("String"), ByName("name")))
    ensures GetChild(d, 2) == Panics(BadIndex(2))
    ensures UsizeAdapter(AsUsize(d, 0).value, t => t == Ty("usize")).Some?
    ensures UsizeAdapter(AsUsize(d, 1).value, t => t == Ty("usize")).None?
  {
    var named := [("width", Ty("usize")), ("name", Ty("String"))];
    var ast := DeriveInput("Args", Generics([], [], []), Struct(Named(named)));
    NamedValidateName(ast, d, named, "width", 0);
    NamedValidateName(ast, d, named, "name", 1);
    NamedValidateNameNone(ast, d, named, "x");
    GetChildTable(ast, d, 0);
    GetChildTable(ast, d, 1);
    GetChildTable(ast, d, 2);
    AsUsizeTable(ast, d, 0);
    AsUsizeTable(ast, d, 1);
  }

  /** The struct `(i32, i32)`. */
  lemma PairScenario(d: Impl, name: string)
    requires Implement(DeriveInput("Pair", Generics([], [], []),
      Struct(Tuple([Ty("i32"), Ty("i32")])))) == Returns(d)
    ensures ValidateIndex(d, 0) && ValidateIndex(d, 1) && !ValidateIndex(d, 2)
    ensures ValidateName(d, name) == None
    ensures GetChild(d, 1) == Returns(Projection(Ty("i32"), ByPosition(1)))
  {
    var ast := DeriveInput("Pair", Generics([], [], []), Struct(Tuple([Ty("i32"), Ty("i32")])));
    GetChildTable(ast, d, 1);
  }
}
