/** The type IR: what a JSON Schema is translated into before printing,
    the predefined primitive types, and structural equality.

    In the source a type is an object with seven optional fields of which
    the generator always fills exactly one; here that is a tagged union.
 */
module TypeIR {
  import opened Results

  /** The two generations of the generator: the library (`lib.ts`), with
      cross-document references and namespaced names, and the earlier
      standalone script (`index.ts`). They share the IR, the union algebra
      and the printer, and differ in the `any` type, `$ref` resolution, name
      casing and when the catch-all property is emitted. */
  datatype Dialect = Library | Script

  /** A JSON literal pinned by `enum` or named in a `/properties/` reference. */
  datatype Literal = StringLit(text: string) | IntLit(number: int) | BoolLit(flag: bool)

  datatype Type =
    | Ref(name: string)
    | Universal(dialect: Dialect)
    | Interface(properties: seq<Property>)
    | Union(members: seq<Type>)
    | Array(element: Type)
    | Tuple(elements: seq<Type>)
    | Const(value: Literal)
    | GenericRef(id: string, arguments: seq<Type>)

  /** An interface member; `name` may carry a trailing `?` marker. */
  datatype Property = Property(name: string, typ: Type)

  /** One published declaration `export type name = typ`. */
  datatype TypeAlias = TypeAlias(name: string, typ: Type)

  /** The name of the universal type. The library maps it onto the JSON
      value type of its runtime package; the script uses the language's own
      `any`. */
  function AnyName(d: Dialect): string
  {
    match d
    case Library => LibraryAnyName
    case Script => ScriptAnyName
  }

  const LibraryAnyName := "TsCommonJson.Json"
  const ScriptAnyName := "any"

  /** The universal type: the shared constant `anyType`, a named reference
      to `AnyName(d)`. `Ts.union` looks for this very object (`===`), not for
      any reference of that name, so the IR keeps it apart from a `Ref` that
      happens to carry the same name; only this function builds it. */
  function AnyType(d: Dialect): Type
  {
    Universal(d)
  }

  const NeverType := Ref("never")
  const StringType := Ref("string")
  const NumberType := Ref("number")
  const BooleanType := Ref("boolean")
  const UndefinedType := Ref("undefined")

  function AnyArrayType(d: Dialect): Type
  {
    Array(AnyType(d))
  }

  /** `typeEqual`. The source compares the ref, interface, union, array,
      tuple and const fields of both sides in turn; since exactly one field
      is filled, that is "same variant, equal payload". The shared universal
      constant has only a ref field, so it equals every reference of its
      name. The genericRef field is never compared, so any two generic
      references are equal. The
      identity fast path of the source is left out: `TypeEqualIsEquivalence`
      shows every type equals itself anyway. */
  predicate TypeEqual(a: Type, b: Type)
    decreases a
  {
    match a
    case Ref(n) => RefName(b) == Some(n)
    case Universal(d) => RefName(b) == Some(AnyName(d))
    case Interface(ps) => b.Interface? && InterfaceEqual(ps, b.properties)
    case Union(ms) => b.Union? && TypeArrayEqual(ms, b.members)
    case Array(e) => b.Array? && TypeEqual(e, b.element)
    case Tuple(es) => b.Tuple? && TypeArrayEqual(es, b.elements)
    case Const(v) => b.Const? && b.value == v
    case GenericRef(_, _) => b.GenericRef?
  }

  /** The ref field of a type: set on named references and on the
      universal constant, unset on everything else. */
  function RefName(t: Type): Option<string>
  {
    match t
    case Ref(n) => Some(n)
    case Universal(d) => Some(AnyName(d))
    case _ => None
  }

  /** `typeArrayEqual`: same length, pairwise `typeEqual`. */
  predicate TypeArrayEqual(xs: seq<Type>, ys: seq<Type>)
    decreases xs
  {
    if |xs| == 0 then |ys| == 0
    else |ys| > 0 && TypeEqual(xs[0], ys[0]) && TypeArrayEqual(xs[1..], ys[1..])
  }

  /** `interfaceEqual`: same length, pairwise `propertyEqual`. */
  predicate InterfaceEqual(ps: seq<Property>, qs: seq<Property>)
    decreases ps
  {
    if |ps| == 0 then |qs| == 0
    else |qs| > 0 && PropertyEqual(ps[0], qs[0]) && InterfaceEqual(ps[1..], qs[1..])
  }

  predicate PropertyEqual(p: Property, q: Property)
    decreases p
  {
    p.name == q.name && TypeEqual(p.typ, q.typ)
  }

  /** The type with every generic reference replaced by one fixed blank
      generic reference, and the universal constant by a plain reference of
      its name: what `TypeEqual` actually looks at. */
  function Erase(t: Type): Type
    decreases t
  {
    match t
    case Ref(_) => t
    case Universal(d) => Ref(AnyName(d))
    case Interface(ps) => Interface(EraseProperties(ps))
    case Union(ms) => Union(EraseAll(ms))
    case Array(e) => Array(Erase(e))
    case Tuple(es) => Tuple(EraseAll(es))
    case Const(_) => t
    case GenericRef(_, _) => GenericRef("", [])
  }

  function EraseAll(ts: seq<Type>): (r: seq<Type>)
    ensures |r| == |ts|
    decreases ts
  {
    if |ts| == 0 then [] else [Erase(ts[0])] + EraseAll(ts[1..])
  }

  function EraseProperties(ps: seq<Property>): (r: seq<Property>)
    ensures |r| == |ps|
    decreases ps
  {
    if |ps| == 0 then [] else [Property(ps[0].name, Erase(ps[0].typ))] + EraseProperties(ps[1..])
  }

  /** Structural equality is exactly value equality once generic
      references are blanked out. */
  lemma {:induction false} TypeEqualIffErased(a: Type, b: Type)
    ensures TypeEqual(a, b) <==> Erase(a) == Erase(b)
    decreases a
  {
    match a
    case Ref(_) =>
    case Universal(_) =>
    case Interface(ps) =>
      if b.Interface? {
        InterfaceEqualIffErased(ps, b.properties);
      }
    case Union(ms) =>
      if b.Union? {
        TypeArrayEqualIffErased(ms, b.members);
      }
    case Array(e) =>
      if b.Array? {
        TypeEqualIffErased(e, b.element);
      }
    case Tuple(es) =>
      if b.Tuple? {
        TypeArrayEqualIffErased(es, b.elements);
      }
    case Const(_) =>
    case GenericRef(_, _) =>
  }

  lemma {:induction false} TypeArrayEqualIffErased(xs: seq<Type>, ys: seq<Type>)
    ensures TypeArrayEqual(xs, ys) <==> EraseAll(xs) == EraseAll(ys)
    decreases xs
  {
    if |xs| > 0 && |ys| > 0 {
      TypeEqualIffErased(xs[0], ys[0]);
      TypeArrayEqualIffErased(xs[1..], ys[1..]);
      var ex, ey := EraseAll(xs), EraseAll(ys);
      assert ex[0] == Erase(xs[0]) && ex[1..] == EraseAll(xs[1..]);
      assert ey[0] == Erase(ys[0]) && ey[1..] == EraseAll(ys[1..]);
      if ex == ey {
        assert ex[0] == ey[0] && ex[1..] == ey[1..];
      }
    }
  }

  lemma {:induction false} InterfaceEqualIffErased(ps: seq<Property>, qs: seq<Property>)
    ensures InterfaceEqual(ps, qs) <==> EraseProperties(ps) == EraseProperties(qs)
    decreases ps
  {
    if |ps| > 0 && |qs| > 0 {
      TypeEqualIffErased(ps[0].typ, qs[0].typ);
      InterfaceEqualIffErased(ps[1..], qs[1..]);
      var ep, eq := EraseProperties(ps), EraseProperties(qs);
      assert ep[0] == Property(ps[0].name, Erase(ps[0].typ)) && ep[1..] == EraseProperties(ps[1..]);
      assert eq[0] == Property(qs[0].name, Erase(qs[0].typ)) && eq[1..] == EraseProperties(qs[1..]);
      if ep == eq {
        assert ep[0] == eq[0] && ep[1..] == eq[1..];
      }
    }
  }

  /** `typeEqual` is reflexive, symmetric and transitive. */
  lemma TypeEqualIsEquivalence(a: Type, b: Type, c: Type)
    ensures TypeEqual(a, a)
    ensures TypeEqual(a, b) ==> TypeEqual(b, a)
    ensures TypeEqual(a, b) && TypeEqual(b, c) ==> TypeEqual(a, c)
  {
    TypeEqualIffErased(a, a);
    TypeEqualIffErased(a, b);
    TypeEqualIffErased(b, a);
    TypeEqualIffErased(b, c);
    TypeEqualIffErased(a, c);
  }

  /** No generic reference and no universal constant anywhere inside: the
      two kinds of node `TypeEqual` identifies with nodes of other values. */
  predicate Plain(t: Type)
    decreases t
  {
    match t
    case Ref(_) => true
    case Universal(_) => false
    case Interface(ps) => forall i :: 0 <= i < |ps| ==> Plain(ps[i].typ)
    case Union(ms) => forall i :: 0 <= i < |ms| ==> Plain(ms[i])
    case Array(e) => Plain(e)
    case Tuple(es) => forall i :: 0 <= i < |es| ==> Plain(es[i])
    case Const(_) => true
    case GenericRef(_, _) => false
  }

  lemma {:induction false} EraseKeepsPlain(t: Type)
    requires Plain(t)
    ensures Erase(t) == t
    decreases t
  {
    match t
    case Ref(_) =>
    case Interface(ps) => ErasePropertiesKeeps(ps);
    case Union(ms) => EraseAllKeeps(ms);
    case Array(e) => EraseKeepsPlain(e);
    case Tuple(es) => EraseAllKeeps(es);
    case Const(_) =>
  }

  lemma {:induction false} EraseAllKeeps(ts: seq<Type>)
    requires forall i :: 0 <= i < |ts| ==> Plain(ts[i])
    ensures EraseAll(ts) == ts
    decreases ts
  {
    if |ts| > 0 {
      EraseKeepsPlain(ts[0]);
      EraseAllKeeps(ts[1..]);
      assert ts == [ts[0]] + ts[1..];
    }
  }

  lemma {:induction false} ErasePropertiesKeeps(ps: seq<Property>)
    requires forall i :: 0 <= i < |ps| ==> Plain(ps[i].typ)
    ensures EraseProperties(ps) == ps
    decreases ps
  {
    if |ps| > 0 {
      EraseKeepsPlain(ps[0].typ);
      ErasePropertiesKeeps(ps[1..]);
      assert ps == [ps[0]] + ps[1..];
    }
  }

  /** Without generic references and the universal constant, structural
      equality is plain value equality: every field is compared. */
  lemma TypeEqualIsValueEquality(a: Type, b: Type)
    requires Plain(a) && Plain(b)
    ensures TypeEqual(a, b) <==> a == b
  {
    TypeEqualIffErased(a, b);
    EraseKeepsPlain(a);
    EraseKeepsPlain(b);
  }

  /** Any two generic references are equal, whatever their ids and
      arguments. */
  lemma GenericRefsAlwaysEqual(id1: string, args1: seq<Type>, id2: string, args2: seq<Type>)
    ensures TypeEqual(GenericRef(id1, args1), GenericRef(id2, args2))
  {
  }

  /** The universal constant is structurally equal to a fresh reference of
      its name, yet it is a different node: `Ts.union` tells them apart. */
  lemma UniversalLooksLikeRef(d: Dialect)
    ensures TypeEqual(AnyType(d), Ref(AnyName(d))) && TypeEqual(Ref(AnyName(d)), AnyType(d))
    ensures AnyType(d) != Ref(AnyName(d))
  {
  }
}
