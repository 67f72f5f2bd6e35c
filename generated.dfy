/**
 * The code the derive emits, as abstract syntax, and the meaning of the four
 * functions of the generated `FormatArgs` impl.
 */
module Generated {
  import opened Wrappers
  import opened Syntax

  /** Why generated code or the derive itself panics. */
  datatype Fault =
    | BadIndex(index: nat)  // `panic!("bad index {}", index)` in the emitted code
    | NotForEnums           // the derive's own panic on an enum

  /** How a call ends: it returns a value, or it panics. */
  datatype Outcome<+T> = Returns(value: T) | Panics(fault: Fault)

  /** How a field is reached from `this`: `this.name` or `this.0`, `this.1`, ... */
  datatype Member = ByName(name: string) | ByPosition(position: nat)

  /** One match arm `pattern => body`. */
  datatype Arm<P, B> = Arm(pattern: P, body: B)

  /**
   * A dispatch on `index`: a `match` whose arms are tried in order and whose
   * catch-all arm panics with "bad index", or a bare panic.
   */
  datatype Dispatch<B> = Match(arms: seq<Arm<nat, B>>) | AlwaysPanic

  /** The body of `validate_name`: constant `None`, or a match on string literals. */
  datatype NameCode = NoneConst | MatchName(arms: seq<Arm<string, nat>>)

  /** The body of `validate_index`: constant `false`, or `index < len`. */
  datatype IndexCode = FalseConst | LessThan(len: nat)

  /** A `get_child` arm's body: `combine::<__F, Self, ty, _>(|this| &this.member)`. */
  datatype Projection = Projection(ty: Ty, member: Member)

  /**
   * An `as_usize` arm's body: a nested
   * `fn inner<fnGenerics>(this: &'lifetime SelfIdent<selfGenerics>) -> &'lifetime ty { &this.member }`
   * handed to the runtime's `as_usize` adapter.
   */
  datatype UsizeHelper = UsizeHelper(
    fnGenerics: Generics, lifetime: string, selfIdent: string, selfGenerics: Generics,
    ty: Ty, member: Member)

  /** The generated item: the dummy constant's name, the impl header and the four bodies. */
  datatype Impl = Impl(
    dummy: string, ident: string, generics: Generics,
    validateName: NameCode, validateIndex: IndexCode,
    getChild: Dispatch<Projection>, asUsize: Dispatch<UsizeHelper>)

  /** How a field is named in a projection: by its identifier, or by its position. */
  function MemberOf(idx: nat, f: Field): Member {
    match f.ident
    case Some(name) => ByName(name)
    case None => ByPosition(idx)
  }

  /** Arm `i` is the first arm whose pattern is `key`. */
  predicate FirstAt<P(==), B>(arms: seq<Arm<P, B>>, key: P, i: nat) {
    i < |arms| && arms[i].pattern == key &&
    forall j :: 0 <= j < i ==> arms[j].pattern != key
  }

  /** Rust `match` semantics: the arms are tried in order and the first matching one is taken. */
  function Select<P(==), B>(arms: seq<Arm<P, B>>, key: P): (r: Option<B>)
    ensures r.None? <==> forall i :: 0 <= i < |arms| ==> arms[i].pattern != key
  {
    if arms == [] then None
    else if arms[0].pattern == key then Some(arms[0].body)
    else Select(arms[1..], key)
  }

  lemma {:induction false} SelectFound<P, B>(arms: seq<Arm<P, B>>, key: P, i: nat)
    requires FirstAt(arms, key, i)
    ensures Select(arms, key) == Some(arms[i].body)
  {
    if i > 0 {
      assert arms[0].pattern != key;
      assert FirstAt(arms[1..], key, i - 1) by {
        forall j | 0 <= j < i - 1 ensures arms[1..][j].pattern != key {
          assert arms[1..][j] == arms[j + 1];
        }
      }
      SelectFound(arms[1..], key, i - 1);
    }
  }

  lemma {:induction false} SelectWitness<P, B>(arms: seq<Arm<P, B>>, key: P)
    requires Select(arms, key).Some?
    ensures exists i: nat :: FirstAt(arms, key, i) && arms[i].body == Select(arms, key).value
  {
    if arms[0].pattern == key {
      assert FirstAt(arms, key, 0);
    } else {
      SelectWitness(arms[1..], key);
      var k: nat :| FirstAt(arms[1..], key, k) && arms[1..][k].body == Select(arms[1..], key).value;
      assert FirstAt(arms, key, k + 1) by {
        assert arms[k + 1] == arms[1..][k];
        forall j | 0 <= j < k + 1 ensures arms[j].pattern != key {
          if j > 0 { assert arms[j] == arms[1..][j - 1]; }
        }
      }
    }
  }

  /**
   * Running a dispatch on `index`: a bare panic always panics with "bad index";
   * a match panics exactly when no arm's literal is `index`, and otherwise
   * returns the body of the first arm whose literal is `index`.
   */
  function Run<B>(d: Dispatch<B>, index: nat): (r: Outcome<B>)
    ensures r.Panics? ==> r.fault == BadIndex(index)
    ensures d.AlwaysPanic? ==> r.Panics?
    ensures d.Match? ==> (r.Panics? <==> forall i :: 0 <= i < |d.arms| ==> d.arms[i].pattern != index)
    ensures d.Match? && r.Returns? ==>
      exists i: nat :: FirstAt(d.arms, index, i) && d.arms[i].body == r.value
  {
    match d
    case AlwaysPanic => Panics(BadIndex(index))
    case Match(arms) =>
      match Select(arms, index)
      case Some(b) => SelectWitness(arms, index); Returns(b)
      case None => Panics(BadIndex(index))
  }

  /** Arm `i` matches the literal `i`, as in arms generated from `0..len` or `enumerate()`. */
  predicate Enumerated<B>(arms: seq<Arm<nat, B>>) {
    forall i :: 0 <= i < |arms| ==> arms[i].pattern == i
  }

  /** An index-enumerated match takes arm `index` when there is one and panics otherwise. */
  lemma RunEnumerated<B>(arms: seq<Arm<nat, B>>, index: nat)
    requires Enumerated(arms)
    ensures Run(Match(arms), index) ==
      if index < |arms| then Returns(arms[index].body) else Panics(BadIndex(index))
  {
    if index < |arms| {
      assert FirstAt(arms, index, index);
      SelectFound(arms, index, index);
    }
  }

  /** `RunEnumerated` for every index at once. */
  lemma RunEnumeratedAll<B>(arms: seq<Arm<nat, B>>)
    requires Enumerated(arms)
    ensures forall index: nat ::
      Run(Match(arms), index) ==
        if index < |arms| then Returns(arms[index].body) else Panics(BadIndex(index))
  {
    forall index: nat
      ensures Run(Match(arms), index) ==
        if index < |arms| then Returns(arms[index].body) else Panics(BadIndex(index))
    {
      RunEnumerated(arms, index);
    }
  }

  // The four functions of the generated `FormatArgs` impl.

  /**
   * `validate_name`: constant `None`, or the index of the first arm whose
   * string literal is `name`, and `None` when there is no such arm.
   */
  function ValidateName(d: Impl, name: string): (r: Option<nat>)
    ensures d.validateName.NoneConst? ==> r.None?
    ensures d.validateName.MatchName? ==>
      (r.None? <==> forall i :: 0 <= i < |d.validateName.arms| ==> d.validateName.arms[i].pattern != name)
    ensures d.validateName.MatchName? && r.Some? ==>
      exists i: nat :: FirstAt(d.validateName.arms, name, i) && d.validateName.arms[i].body == r.value
  {
    match d.validateName
    case NoneConst => None
    case MatchName(arms) =>
      var r := Select(arms, name);
      if r.Some? then SelectWitness(arms, name); r else r
  }

  /** `validate_index`: holds exactly when the body is `index < len` and `index` is below `len`. */
  function ValidateIndex(d: Impl, index: nat): (r: bool)
    ensures r <==> d.validateIndex.LessThan? && index < d.validateIndex.len
  {
    match d.validateIndex
    case FalseConst => false
    case LessThan(len) => index < len
  }

  /** `get_child`: the projection of the first arm matching `index`; the "bad index" panic when no arm matches. */
  function GetChild(d: Impl, index: nat): (r: Outcome<Projection>)
    ensures r.Panics? ==> r.fault == BadIndex(index)
    ensures d.getChild.AlwaysPanic? ==> r.Panics?
    ensures d.getChild.Match? ==>
      (r.Panics? <==> forall i :: 0 <= i < |d.getChild.arms| ==> d.getChild.arms[i].pattern != index)
    ensures r.Returns? ==>
      d.getChild.Match? &&
      exists i: nat :: FirstAt(d.getChild.arms, index, i) && d.getChild.arms[i].body == r.value
  {
    Run(d.getChild, index)
  }

  /** `as_usize`: the accessor of the first arm matching `index`; the "bad index" panic when no arm matches. */
  function AsUsize(d: Impl, index: nat): (r: Outcome<UsizeHelper>)
    ensures r.Panics? ==> r.fault == BadIndex(index)
    ensures d.asUsize.AlwaysPanic? ==> r.Panics?
    ensures d.asUsize.Match? ==>
      (r.Panics? <==> forall i :: 0 <= i < |d.asUsize.arms| ==> d.asUsize.arms[i].pattern != index)
    ensures r.Returns? ==>
      d.asUsize.Match? &&
      exists i: nat :: FirstAt(d.asUsize.arms, index, i) && d.asUsize.arms[i].body == r.value
  {
    Run(d.asUsize, index)
  }

  /**
   * The runtime's `as_usize` adapter, which accepts a field accessor only when
   * the field's type is `usize`; that type test is the parameter `isUsize`.
   */
  function UsizeAdapter(h: UsizeHelper, isUsize: Ty -> bool): (r: Option<UsizeHelper>)
    ensures r.Some? <==> isUsize(h.ty)
    ensures r.Some? ==> r.value == h
  {
    if isUsize(h.ty) then Some(h) else None
  }
}
