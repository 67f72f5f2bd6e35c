/**
 * The `as_usize` generator (`build_usize`): one arm per field, each defining a
 * nested accessor function generic over the struct's generics plus a fresh
 * input lifetime.
 */
module Usize {
  import opened Syntax
  import opened Generated

  /** The fresh lifetime used for the accessor's input and output references. */
  const InnerLifetime: string := "'__as_usize_inner"

  /** `'__as_usize_inner` as a lifetime parameter, without attributes or bounds. */
  const InnerLifetimeDef: LifetimeDef := LifetimeDef([], InnerLifetime, [])

  /** The struct's generics with the fresh lifetime inserted before all others. */
  function WithInnerLifetime(g: Generics): (r: Generics)
    ensures |r.lifetimes| == |g.lifetimes| + 1
    ensures r.lifetimes[0] == InnerLifetimeDef
    ensures forall k :: 0 <= k < |g.lifetimes| ==> r.lifetimes[k + 1] == g.lifetimes[k]
    ensures r.tyParams == g.tyParams && r.whereClause == g.whereClause
  {
    g.(lifetimes := [InnerLifetimeDef] + g.lifetimes)
  }

  /**
   * The accessor emitted for the field `f` at position `idx`: it reads `f`
   * (by name, or by position `idx`) and returns a reference of `f`'s declared
   * type under `'__as_usize_inner`, which its own generics declare first,
   * bare, ahead of the struct's own generics.
   */
  function HelperFor(ast: DeriveInput, idx: nat, f: Field): (h: UsizeHelper)
    ensures h.fnGenerics.lifetimes != [] && h.fnGenerics.lifetimes[0].lifetime == h.lifetime
    ensures h.fnGenerics.lifetimes[0] == InnerLifetimeDef && h.lifetime == InnerLifetime
    ensures h.fnGenerics.lifetimes[1..] == h.selfGenerics.lifetimes == ast.generics.lifetimes
    ensures h.fnGenerics.tyParams == ast.generics.tyParams && h.fnGenerics.whereClause == ast.generics.whereClause
    ensures h.selfGenerics == ast.generics && h.selfIdent == ast.ident
    ensures h.ty == f.ty && h.member == MemberOf(idx, f)
  {
    UsizeHelper(WithInnerLifetime(ast.generics), InnerLifetime, ast.ident, ast.generics,
                f.ty, MemberOf(idx, f))
  }

  /**
   * The `as_usize` table: the emitted match takes, on any index below the
   * field count, that field's accessor, and panics with "bad index" on every
   * other index.
   */
  function UsizeTable(ast: DeriveInput, fields: seq<Field>): (d: Dispatch<UsizeHelper>)
    ensures d.Match? && |d.arms| == |fields|
    ensures forall index: nat ::
      Run(d, index) ==
        if index < |fields| then Returns(HelperFor(ast, index, fields[index]))
        else Panics(BadIndex(index))
  {
    var arms := seq(|fields|, i requires 0 <= i < |fields| => Arm(i, HelperFor(ast, i, fields[i])));
    RunEnumeratedAll(arms);
    Match(arms)
  }

  /**
   * `build_usize`: clones the generics, inserts the fresh lifetime at position 0,
   * then appends one arm per field, in order, to a growing arm list.
   */
  method BuildUsize(ast: DeriveInput, fields: seq<Field>) returns (code: Dispatch<UsizeHelper>)
    ensures code.Match? && |code.arms| == |fields|
    ensures forall i :: 0 <= i < |fields| ==>
      code.arms[i] == Arm(i, UsizeHelper(WithInnerLifetime(ast.generics), InnerLifetime, ast.ident,
                                         ast.generics, fields[i].ty, MemberOf(i, fields[i])))
    ensures code == UsizeTable(ast, fields)
  {
    var generics2 := ast.generics;
    var lifetimes := generics2.lifetimes;
    lifetimes := [InnerLifetimeDef] + lifetimes;
    generics2 := generics2.(lifetimes := lifetimes);

    var result: seq<Arm<nat, UsizeHelper>> := [];
    for idx := 0 to |fields|
      invariant |result| == idx
      invariant forall i :: 0 <= i < idx ==>
        result[i] == Arm(i, UsizeHelper(generics2, InnerLifetime, ast.ident, ast.generics,
                                        fields[i].ty, MemberOf(i, fields[i])))
    {
      var field := fields[idx];
      var member := match field.ident
        case Some(name) => ByName(name)
        case None => ByPosition(idx);
      result := result + [Arm(idx, UsizeHelper(generics2, InnerLifetime, ast.ident, ast.generics,
                                               field.ty, member))];
    }
    code := Match(result);
  }
}
