/** The printer: `Ts.type` and `typeAlias`.

    A type renders as a block of lines. Named references, constants, arrays,
    tuples and generic references of one-line parts stay on one line;
    a non-empty interface opens a brace, prints each property indented on
    its own lines and closes the brace. Union members are joined with `|`
    and never parenthesised, so a union nested in an array prints as
    `ReadonlyArray<a|b>`.
 */
module Printer {
  import opened Strings
  import opened Lines
  import opened TypeIR
  import opened Names

  /** The text of a literal as string concatenation produces it. */
  function LiteralText(v: Literal): string
  {
    match v
    case StringLit(s) => s
    case IntLit(n) => IntText(n)
    case BoolLit(b) => if b then "true" else "false"
  }

  /** A union all of whose members print nothing, such as the empty union. */
  predicate Silent(t: Type)
    decreases t
  {
    t.Union? && forall i :: 0 <= i < |t.members| ==> Silent(t.members[i])
  }

  /** `Ts.type`. Only a union can print nothing, when all of its members
      print nothing: joining adds no line of its own, and every other kind
      of type yields at least one line. */
  function Render(t: Type): (r: seq<string>)
    ensures |r| == 0 <==> Silent(t)
    decreases t
  {
    match t
    case Ref(n) => [n]
    case Universal(d) => [AnyName(d)]
    case Interface(ps) => if |ps| == 0 then ["{}"] else ["{"] + RenderProperties(ps) + ["}"]
    case Union(ms) =>
      JoinLineCount(RenderAll(ms), "|");
      Join(RenderAll(ms), "|")
    case Array(e) => Wrap(Render(e), "ReadonlyArray<", ">")
    case Tuple(es) => Wrap(Join(RenderAll(es), ","), "[", "]")
    case Const(v) => ["\"" + LiteralText(v) + "\""]
    case GenericRef(id, args) => Wrap(Join(RenderAll(args), ","), id + "<", ">")
  }

  /** Every member rendered on its own. */
  function RenderAll(ts: seq<Type>): (r: seq<seq<string>>)
    ensures |r| == |ts|
    ensures forall i :: 0 <= i < |ts| ==> r[i] == Render(ts[i])
    decreases ts
  {
    if |ts| == 0 then [] else [Render(ts[0])] + RenderAll(ts[1..])
  }

  /** One interface member: `readonly name: ` before the type, indented. */
  function PropertyLines(p: Property): seq<string>
    decreases p
  {
    Indent(Wrap(Render(p.typ), "readonly " + p.name + ": ", ""))
  }

  function RenderProperties(ps: seq<Property>): seq<string>
    decreases ps
  {
    if |ps| == 0 then [] else PropertyLines(ps[0]) + RenderProperties(ps[1..])
  }

  /** `typeAlias`. */
  function RenderAlias(d: Dialect, a: TypeAlias): (r: seq<string>)
    requires ValidTypeName(d, a.name)
    ensures |r| >= 1
    ensures StartsWith(r[0], "export type " + TypeName(d, a.name) + " = ")
    ensures |r| == if |Render(a.typ)| == 0 then 1 else |Render(a.typ)|
  {
    var prefix := "export type " + TypeName(d, a.name) + " = ";
    var r := Wrap(Render(a.typ), prefix, "");
    assert r[0][..|prefix|] == prefix;
    r
  }

  /** Types that print on one line: no interface with members and no
      union without members anywhere inside. */
  predicate OneLiner(t: Type)
    decreases t
  {
    match t
    case Ref(_) => true
    case Universal(_) => true
    case Interface(ps) => |ps| == 0
    case Union(ms) => |ms| > 0 && forall i :: 0 <= i < |ms| ==> OneLiner(ms[i])
    case Array(e) => OneLiner(e)
    case Tuple(es) => forall i :: 0 <= i < |es| ==> OneLiner(es[i])
    case Const(_) => true
    case GenericRef(_, args) => forall i :: 0 <= i < |args| ==> OneLiner(args[i])
  }

  /** The TypeScript text of a one-line type, written directly. */
  function Inline(t: Type): string
    decreases t
  {
    match t
    case Ref(n) => n
    case Universal(d) => AnyName(d)
    case Interface(_) => "{}"
    case Union(ms) => Joined(InlineAll(ms), "|")
    case Array(e) => "ReadonlyArray<" + Inline(e) + ">"
    case Tuple(es) => "[" + Joined(InlineAll(es), ",") + "]"
    case Const(v) => "\"" + LiteralText(v) + "\""
    case GenericRef(id, args) => id + "<" + Joined(InlineAll(args), ",") + ">"
  }

  function InlineAll(ts: seq<Type>): (r: seq<string>)
    ensures |r| == |ts|
    ensures forall i :: 0 <= i < |ts| ==> r[i] == Inline(ts[i])
    decreases ts
  {
    if |ts| == 0 then [] else [Inline(ts[0])] + InlineAll(ts[1..])
  }

  /** A one-line type renders as exactly one line, the direct text. */
  lemma {:induction false} RenderOneLiner(t: Type)
    requires OneLiner(t)
    ensures Render(t) == [Inline(t)]
    decreases t, 1
  {
    match t
    case Ref(_) =>
    case Universal(_) =>
    case Interface(_) =>
    case Union(ms) =>
      RenderAllOneLiners(ms);
    case Array(e) =>
      RenderOneLiner(e);
    case Tuple(es) =>
      RenderAllOneLiners(es);
      if |es| == 0 {
        assert "[" + Joined(InlineAll(es), ",") + "]" == "[" + "]";
      }
    case Const(_) =>
    case GenericRef(id, args) =>
      RenderAllOneLiners(args);
      if |args| == 0 {
        assert id + "<" + Joined(InlineAll(args), ",") + ">" == id + "<" + ">";
      }
  }

  /** Joining one-line members, with any separator, is joining their texts. */
  lemma {:induction false} RenderAllOneLiners(ts: seq<Type>)
    requires forall i :: 0 <= i < |ts| ==> OneLiner(ts[i])
    ensures forall sep :: Join(RenderAll(ts), sep) == if |ts| == 0 then [] else [Joined(InlineAll(ts), sep)]
    decreases ts, 0
  {
    var blocks := RenderAll(ts);
    forall i | 0 <= i < |ts| ensures blocks[i] == [Inline(ts[i])] {
      RenderOneLiner(ts[i]);
    }
    if |ts| > 0 {
      forall sep ensures Join(blocks, sep) == [Joined(InlineAll(ts), sep)] {
        JoinInlined(ts, blocks, sep);
      }
    }
  }

  /** Joining blocks of one line each, the lines being the members' texts. */
  lemma JoinInlined(ts: seq<Type>, blocks: seq<seq<string>>, sep: string)
    requires |blocks| == |ts| > 0
    requires forall i :: 0 <= i < |ts| ==> blocks[i] == [Inline(ts[i])]
    ensures Join(blocks, sep) == [Joined(InlineAll(ts), sep)]
  {
    JoinSingleLines(blocks, sep);
    assert seq(|blocks|, k requires 0 <= k < |blocks| => blocks[k][0]) == InlineAll(ts);
  }

  /** A one-line type's alias is the single line
      `export type Name = text`. */
  lemma AliasOneLiner(d: Dialect, a: TypeAlias)
    requires ValidTypeName(d, a.name) && OneLiner(a.typ)
    ensures RenderAlias(d, a) == ["export type " + TypeName(d, a.name) + " = " + Inline(a.typ)]
  {
    RenderOneLiner(a.typ);
    var prefix := "export type " + TypeName(d, a.name) + " = ";
    assert prefix + Inline(a.typ) + "" == prefix + Inline(a.typ);
  }

  /** An interface with members opens and closes a brace on lines of their
      own, and every line between them is indented. */
  lemma InterfaceLayout(ps: seq<Property>)
    requires |ps| > 0
    ensures var r := Render(Interface(ps));
      |r| >= 3 && r[0] == "{" && r[|r| - 1] == "}" &&
      forall i :: 0 < i < |r| - 1 ==> StartsWith(r[i], IndentUnit)
  {
    PropertiesIndented(ps);
    var body := RenderProperties(ps);
    var r := ["{"] + body + ["}"];
    forall i | 0 < i < |r| - 1 ensures StartsWith(r[i], IndentUnit) {
      assert r[i] == body[i - 1];
    }
  }

  /** Every property contributes at least one line, all indented. */
  lemma {:induction false} PropertiesIndented(ps: seq<Property>)
    ensures |RenderProperties(ps)| >= |ps|
    ensures forall i :: 0 <= i < |RenderProperties(ps)| ==> StartsWith(RenderProperties(ps)[i], IndentUnit)
  {
    if |ps| > 0 {
      PropertiesIndented(ps[1..]);
      var head := PropertyLines(ps[0]);
      var rest := RenderProperties(ps[1..]);
      forall i | 0 <= i < |head + rest| ensures StartsWith((head + rest)[i], IndentUnit) {
        if i < |head| {
          assert (head + rest)[i] == IndentUnit + Wrap(Render(ps[0].typ), "readonly " + ps[0].name + ": ", "")[i];
        } else {
          assert (head + rest)[i] == rest[i - |head|];
        }
      }
    }
  }

  /** An interface of one-line members prints one indented
      `readonly name: text` line per member between the braces. */
  lemma InterfaceOfOneLiners(ps: seq<Property>)
    requires |ps| > 0
    requires forall i :: 0 <= i < |ps| ==> OneLiner(ps[i].typ)
    ensures Render(Interface(ps)) == ["{"] + MemberLines(ps) + ["}"]
  {
    PropertiesOfOneLiners(ps);
  }

  /** The line of one member of a one-liner type. */
  function MemberLine(p: Property): string
  {
    IndentUnit + "readonly " + p.name + ": " + Inline(p.typ)
  }

  /** The member lines of an interface whose members are one-liners. */
  function MemberLines(ps: seq<Property>): (r: seq<string>)
    ensures |r| == |ps|
    ensures forall i :: 0 <= i < |ps| ==> r[i] == MemberLine(ps[i])
  {
    if |ps| == 0 then [] else [MemberLine(ps[0])] + MemberLines(ps[1..])
  }

  lemma PropertyOfOneLiner(p: Property)
    requires OneLiner(p.typ)
    ensures PropertyLines(p) == [MemberLine(p)]
  {
    RenderOneLiner(p.typ);
    var line := "readonly " + p.name + ": " + Inline(p.typ);
    assert line + "" == line;
    assert IndentUnit + line == MemberLine(p);
  }

  lemma {:induction false} PropertiesOfOneLiners(ps: seq<Property>)
    requires forall i :: 0 <= i < |ps| ==> OneLiner(ps[i].typ)
    ensures RenderProperties(ps) == MemberLines(ps)
  {
    if |ps| > 0 {
      PropertiesOfOneLiners(ps[1..]);
      PropertyOfOneLiner(ps[0]);
    }
  }

  /** A union without members prints no line at all, so its alias is left
      with nothing after the `=`. */
  lemma EmptyUnionPrintsNothing(d: Dialect, name: string)
    requires ValidTypeName(d, name)
    ensures Render(Union([])) == []
    ensures RenderAlias(d, TypeAlias(name, Union([]))) == ["export type " + TypeName(d, name) + " = "]
  {
    assert RenderAll([]) == [];
    var prefix := "export type " + TypeName(d, name) + " = ";
    assert prefix + "" == prefix;
  }

  /** Unions are never parenthesised: a union inside an array prints its
      members directly between the angle brackets. */
  lemma UnionInArrayUnparenthesised(a: string, b: string)
    ensures Render(Array(Union([Ref(a), Ref(b)]))) == ["ReadonlyArray<" + a + "|" + b + ">"]
  {
    var t := Array(Union([Ref(a), Ref(b)]));
    assert OneLiner(t);
    RenderOneLiner(t);
    assert InlineAll([Ref(a), Ref(b)]) == [a, b];
    assert Joined([a, b], "|") == a + "|" + b by {
      assert [a, b][1..] == [b];
    }
    assert "ReadonlyArray<" + (a + "|" + b) + ">" == "ReadonlyArray<" + a + "|" + b + ">";
  }

  /** Three parts joined: the parts with a separator between each two. */
  lemma JoinedThree(a: string, b: string, c: string, sep: string)
    ensures Joined([a, b, c], sep) == a + sep + b + sep + c
  {
    assert Joined([c], sep) == c;
    assert Joined([b, c], sep) == b + sep + c by {
      assert [b, c][1..] == [c];
    }
    assert Joined([a, b, c], sep) == a + sep + (b + sep + c) by {
      assert [a, b, c][1..] == [b, c];
    }
    assert a + sep + (b + sep + c) == a + sep + b + sep + c;
  }

  /** A union's direct text is its members' texts joined with `|`. */
  lemma InlineUnion(ms: seq<Type>)
    ensures Inline(Union(ms)) == Joined(InlineAll(ms), "|")
  {
  }

  /** The direct text of a union of three constants: each constant quoted,
      separated by `|`. */
  lemma ThreeConstsInline(x: Literal, y: Literal, z: Literal)
    ensures Inline(Union([Const(x), Const(y), Const(z)])) ==
      Inline(Const(x)) + "|" + Inline(Const(y)) + "|" + Inline(Const(z))
  {
    var ms := [Const(x), Const(y), Const(z)];
    InlineUnion(ms);
    assert InlineAll(ms) == [Inline(Const(x)), Inline(Const(y)), Inline(Const(z))];
    JoinedThree(Inline(Const(x)), Inline(Const(y)), Inline(Const(z)), "|");
  }

  /** A small natural number prints as its one digit. */
  lemma DigitConst(n: nat, c: char)
    requires n < 10 && DigitText(n) == c
    ensures Inline(Const(IntLit(n))) == ['"', c, '"']
  {
  }

  /** Constants are quoted whatever their kind: an enum of three one-digit
      numbers prints as the three digits, each in quotes, joined by `|`. */
  lemma DigitEnumQuoted(a: nat, b: nat, c: nat)
    requires a < 10 && b < 10 && c < 10
    ensures Render(Union([Const(IntLit(a)), Const(IntLit(b)), Const(IntLit(c))])) ==
      [['"', DigitText(a), '"', '|', '"', DigitText(b), '"', '|', '"', DigitText(c), '"']]
  {
    RenderThreeConsts(IntLit(a), IntLit(b), IntLit(c));
    DigitConst(a, DigitText(a));
    DigitConst(b, DigitText(b));
    DigitConst(c, DigitText(c));
    QuotedThree(DigitText(a), DigitText(b), DigitText(c));
  }

  /** A union of three constants prints on one line. */
  lemma RenderThreeConsts(x: Literal, y: Literal, z: Literal)
    ensures Render(Union([Const(x), Const(y), Const(z)])) ==
      [Inline(Const(x)) + "|" + Inline(Const(y)) + "|" + Inline(Const(z))]
  {
    var ms := [Const(x), Const(y), Const(z)];
    assert OneLiner(Union(ms)) by {
      assert OneLiner(ms[0]) && OneLiner(ms[1]) && OneLiner(ms[2]);
    }
    RenderOneLiner(Union(ms));
    ThreeConstsInline(x, y, z);
  }

  lemma QuotedThree(p: char, q: char, r: char)
    ensures ['"', p, '"'] + "|" + ['"', q, '"'] + "|" + ['"', r, '"'] ==
      ['"', p, '"', '|', '"', q, '"', '|', '"', r, '"']
  {
  }

  /** The enum `[1, 2, 3]` prints as `"1"|"2"|"3"`. */
  lemma NumericEnumQuoted()
    ensures Render(Union([Const(IntLit(1)), Const(IntLit(2)), Const(IntLit(3))])) == ["\"1\"|\"2\"|\"3\""]
  {
    DigitEnumQuoted(1, 2, 3);
    assert DigitText(1) == '1' && DigitText(2) == '2' && DigitText(3) == '3';
  }
}
