/** `$ref` resolution in both generations, and the reference constructors
    `refType` and `genericRefType`.

    The library splits a reference at `#` into a document part and a
    fragment in the URI-fragment form of section 6 of RFC 6901. A
    non-empty document part names another schema file: the file's base name
    up to its first `.` becomes a namespace, is recorded among the imports,
    and prefixes the target's name. The fragment `/definitions/x` names
    definition `x`, `/properties/p` names property `p` of the document's
    root type, and anything else falls back to the universal type.

    The script knows only `#` and `#/definitions/x` and records no imports.
    Neither generation unescapes `~0`/`~1` or percent-escapes.
 */
module Refs {
  import opened Strings
  import opened Results
  import opened TypeIR
  import opened Names

  const DefinitionsPath := "/definitions/"
  const PropertiesPath := "/properties/"

  /** The script's only recognised reference prefix. */
  const DefinitionsUri := "#/definitions/"

  /** `refType`: a named reference, the name normalised. */
  function RefType(d: Dialect, name: string): (r: Result<Type>)
    ensures r.Ok? <==> ValidTypeName(d, name)
    ensures r.Ok? ==> r.value == Ref(TypeName(d, name))
  {
    var n :- TryTypeName(d, name);
    Ok(Ref(n))
  }

  /** `genericRefType`, which only the library has. */
  function GenericRefType(id: string, arguments: seq<Type>): (r: Result<Type>)
    ensures r.Ok? <==> ValidTypeName(Library, id)
    ensures r.Ok? ==> r.value == GenericRef(TypeName(Library, id), arguments)
  {
    var n :- TryTypeName(Library, id);
    Ok(GenericRef(n, arguments))
  }

  /** The namespace a document path stands for: its last `/` segment up to
      the first `.`. */
  function Namespace(before: string): (ns: string)
    ensures '/' !in ns && '.' !in ns
  {
    var segments := Split(before, '/');
    var file := segments[|segments| - 1];
    var ns := Split(file, '.')[0];
    assert '/' !in ns by {
      JoinSplit(file, '.');
      JoinedHead(Split(file, '.'), ['.']);
    }
    ns
  }

  /** The first part is a prefix of the joined text. */
  lemma {:induction false} JoinedHead(parts: seq<string>, sep: string)
    requires |parts| >= 1
    ensures Joined(parts, sep)[..|parts[0]|] == parts[0]
  {
  }

  /** `getTypePrefix`: nothing for the current document; otherwise the
      namespace and a dot, with the namespace added to the imports. */
  function TypePrefix(imports: set<string>, before: string): (r: (string, set<string>))
    ensures imports <= r.1 && |r.1 - imports| <= 1
    ensures before == "" <==> r.0 == ""
    ensures before != "" ==> r.1 - imports <= {r.0[..|r.0| - 1]} && r.0[..|r.0| - 1] in r.1
    ensures before != "" ==> r == (Namespace(before) + ".", imports + {Namespace(before)})
  {
    if before == "" then ("", imports)
    else
      var ns := Namespace(before);
      assert (ns + ".")[..|ns|] == ns;
      assert imports + {ns} - imports <= {ns};
      (ns + ".", imports + {ns})
  }

  /** `getRefType`: the target a fragment names. */
  function FragmentType(prefix: string, after: string): (r: Result<Type>)
    ensures !StartsWith(after, DefinitionsPath) && !StartsWith(after, PropertiesPath) ==>
      r == Ok(AnyType(Library))
  {
    if StartsWith(after, DefinitionsPath) then
      RefType(Library, prefix + after[|DefinitionsPath|..])
    else if StartsWith(after, PropertiesPath) then
      var root :- RefType(Library, prefix + "Main");
      GenericRefType("TsCommonJson.Property", [root, Const(StringLit(after[|PropertiesPath|..]))])
    else
      Ok(AnyType(Library))
  }

  /** `createRefType`, returning the type and the grown import set. */
  function CreateRefType(mainName: string, imports: set<string>, ref: string): (r: Result<(Type, set<string>)>)
    ensures r.Ok? ==> imports <= r.value.1 && |r.value.1 - imports| <= 1
    ensures ref != "#" && |Split(ref, '#')| != 2 ==> r == Ok((AnyType(Library), imports))
  {
    if ref == "#" then
      var t :- RefType(Library, mainName);
      Ok((t, imports))
    else
      var parts := Split(ref, '#');
      if |parts| != 2 then Ok((AnyType(Library), imports))
      else
        var (prefix, grown) := TypePrefix(imports, parts[0]);
        var t :- FragmentType(prefix, parts[1]);
        Ok((t, grown))
  }

  /** The script's `$ref` branch. */
  function ScriptRefType(mainName: string, ref: string): (r: Result<Type>)
    ensures ref != "#" && !StartsWith(ref, DefinitionsUri) ==> r == Ok(AnyType(Script))
  {
    if ref == "#" then RefType(Script, mainName)
    else if StartsWith(ref, DefinitionsUri) then RefType(Script, ref[|DefinitionsUri|..])
    else Ok(AnyType(Script))
  }

  /** `$ref` resolution in either generation; the script never imports. */
  function ResolveRef(d: Dialect, mainName: string, imports: set<string>, ref: string): (r: Result<(Type, set<string>)>)
    ensures r.Ok? ==> imports <= r.value.1
    ensures d == Script && r.Ok? ==> r.value.1 == imports
    ensures r.Ok? ==> !r.value.0.Union?
  {
    match d
    case Library => CreateRefType(mainName, imports, ref)
    case Script =>
      var t :- ScriptRefType(mainName, ref);
      Ok((t, imports))
  }

  /** A reference that splits into a document part and a fragment resolves
      the fragment under the document's prefix. */
  lemma CreateRefTypeParts(mainName: string, imports: set<string>, ref: string, before: string, after: string)
    requires ref != "#" && Split(ref, '#') == [before, after]
    ensures CreateRefType(mainName, imports, ref) ==
      match FragmentType(TypePrefix(imports, before).0, after)
      case Ok(t) => Ok((t, TypePrefix(imports, before).1))
      case Throws => Throws
  {
  }

  /** A reference with one `#` splits into its document part and fragment. */
  lemma SplitDocument(before: string, after: string)
    requires '#' !in before && '#' !in after
    ensures Split(before + "#" + after, '#') == [before, after]
  {
    SplitAtFirst(before, '#', after);
    SplitWithout(after, '#');
    assert before + ['#'] + after == before + "#" + after;
  }

  /** The fragment `/definitions/x` names `x` under the prefix. */
  lemma FragmentDefinition(prefix: string, x: string)
    requires ValidTypeName(Library, prefix + x)
    ensures FragmentType(prefix, DefinitionsPath + x) == Ok(Ref(TypeName(Library, prefix + x)))
  {
    var after := DefinitionsPath + x;
    assert after[..|DefinitionsPath|] == DefinitionsPath;
    assert after[|DefinitionsPath|..] == x;
  }

  /** `#` names the root type in both generations. */
  lemma RootRef(d: Dialect, mainName: string, imports: set<string>)
    ensures ResolveRef(d, mainName, imports, "#") ==
      if ValidTypeName(d, mainName) then Ok((Ref(TypeName(d, mainName)), imports)) else Throws
  {
  }

  /** A fragment-only reference splits into an empty document part and the
      fragment. */
  lemma SplitLocal(fragment: string)
    requires '#' !in fragment
    ensures Split("#" + fragment, '#') == ["", fragment]
  {
    SplitAtFirst("", '#', fragment);
    SplitWithout(fragment, '#');
    assert "" + ['#'] + fragment == "#" + fragment;
  }

  /** In both generations a local reference `#/definitions/x` names exactly
      the alias the definition `x` is published under, and imports nothing. */
  lemma LocalDefinitionRef(d: Dialect, mainName: string, imports: set<string>, x: string)
    requires '#' !in x && ValidTypeName(d, x)
    ensures ResolveRef(d, mainName, imports, "#/definitions/" + x) == Ok((Ref(TypeName(d, x)), imports))
  {
    var ref := "#/definitions/" + x;
    match d
    case Library =>
      assert ref == "#" + (DefinitionsPath + x);
      SplitLocal(DefinitionsPath + x);
      assert (DefinitionsPath + x)[..|DefinitionsPath|] == DefinitionsPath;
      assert (DefinitionsPath + x)[|DefinitionsPath|..] == x;
      assert "" + x == x;
    case Script =>
      assert ref[..|DefinitionsUri|] == DefinitionsUri;
      assert ref[|DefinitionsUri|..] == x;
  }

  /** The intent of the repository's test: `#/definitions/a` resolves to
      `A`. */
  lemma LocalDefinitionExample(mainName: string, imports: set<string>, ref: string)
    requires ref == "#/definitions/a"
    ensures CreateRefType(mainName, imports, ref) == Ok((Ref("A"), imports))
  {
    var a := "a";
    assert TypeName(Library, a) == "A" by {
      OneSegmentName(a);
      PascalCaseLowerHead('a', "");
      assert ['a'] + "" == a;
      assert UpperAscii('a') == 'A';
    }
    LocalDefinitionRef(Library, mainName, imports, a);
    assert ref == "#/definitions/" + a;
  }

  /** The fragment `/properties/p` names the generic property type of the
      prefixed root type. */
  lemma FragmentProperty(prefix: string, p: string)
    requires ValidTypeName(Library, prefix + "Main")
    ensures FragmentType(prefix, PropertiesPath + p) ==
      Ok(GenericRef("TsCommonJson.Property", [Ref(TypeName(Library, prefix + "Main")), Const(StringLit(p))]))
  {
    var after := PropertiesPath + p;
    assert !StartsWith(after, DefinitionsPath) by {
      assert after[1] != DefinitionsPath[1];
    }
    assert StartsWith(after, PropertiesPath) by {
      assert after[..|PropertiesPath|] == PropertiesPath;
    }
    assert after[|PropertiesPath|..] == p;
    PropertyTypeName();
  }

  /** `#/properties/p` is the generic property type of the root type,
      parameterised with the property name as a literal. */
  lemma LocalPropertyRef(mainName: string, imports: set<string>, p: string)
    requires '#' !in p
    ensures CreateRefType(mainName, imports, "#/properties/" + p) ==
      Ok((GenericRef("TsCommonJson.Property", [Ref("Main"), Const(StringLit(p))]), imports))
  {
    PropertiesRefSplit(p);
    CreateRefTypeParts(mainName, imports, "#/properties/" + p, "", PropertiesPath + p);
    RootTypeName();
    FragmentProperty("", p);
  }

  /** `#/properties/p` has an empty document part. */
  lemma PropertiesRefSplit(p: string)
    requires '#' !in p
    ensures "#/properties/" + p != "#"
    ensures Split("#/properties/" + p, '#') == ["", PropertiesPath + p]
  {
    PropertiesRefShape(p);
    PropertiesPathHashFree();
    HashFreeSplit(PropertiesPath, p);
  }

  /** The reference text is `#` followed by the path. */
  lemma PropertiesRefShape(p: string)
    ensures "#/properties/" + p == "" + "#" + (PropertiesPath + p)
    ensures "#/properties/" + p != "#"
  {
    assert |"#/properties/" + p| > 1;
  }

  lemma PropertiesPathHashFree()
    ensures '#' !in PropertiesPath
  {
    forall i | 0 <= i < |PropertiesPath| ensures PropertiesPath[i] != '#' {
    }
  }

  /** A fragment built from two hash-free parts splits off an empty document. */
  lemma HashFreeSplit(x: string, p: string)
    requires '#' !in x && '#' !in p
    ensures Split("" + "#" + (x + p), '#') == ["", x + p]
  {
    assert forall i | 0 <= i < |x + p| :: (x + p)[i] in x || (x + p)[i] in p;
    SplitDocument("", x + p);
  }

  /** The root of the current document is the type `Main`. */
  lemma RootTypeName()
    ensures ValidTypeName(Library, "" + "Main") && TypeName(Library, "" + "Main") == "Main"
  {
    assert "" + "Main" == "Main";
    OneSegmentName("Main");
    PascalCaseFixed("Main");
  }

  lemma PropertyTypeName()
    ensures ValidTypeName(Library, "TsCommonJson.Property")
    ensures TypeName(Library, "TsCommonJson.Property") == "TsCommonJson.Property"
  {
    var a, b := "TsCommonJson", "Property";
    assert a[0] == 'T' && b[0] == 'P';
    TwoSegmentNameFixed(a, b);
    assert a + "." + b == "TsCommonJson.Property";
  }

  /** The namespace of `dir/base.ext` is `base`, however many directories
      `dir` holds; and so is the namespace of a bare `base.ext`. */
  lemma NamespaceOfFile(dir: string, base: string, ext: string)
    requires '/' !in base && '.' !in base && '/' !in ext
    ensures Namespace(dir + "/" + base + "." + ext) == base
    ensures Namespace(base + "." + ext) == base
  {
    var file := base + "." + ext;
    assert '/' !in file by {
      forall k | 0 <= k < |file| ensures file[k] != '/' {
        if k < |base| { assert file[k] == base[k]; }
        else if k > |base| { assert file[k] == ext[k - |base| - 1]; }
      }
    }
    LastSegment(dir, file);
    assert dir + ['/'] + file == dir + "/" + base + "." + ext;
    SplitWithout(file, '/');
    SplitAtFirst(base, '.', ext);
    assert base + ['.'] + ext == file;
  }

  /** The last `/` segment of `dir/file` is `file` when `file` holds no
      `/`. */
  lemma LastSegment(dir: string, file: string)
    requires '/' !in file
    ensures var parts := Split(dir + ['/'] + file, '/'); parts[|parts| - 1] == file
  {
    var front := Split(dir, '/');
    var parts := front + [file];
    forall i | 0 <= i < |parts| ensures '/' !in parts[i] {
      if i < |front| { assert parts[i] == front[i]; }
    }
    SplitWithout(file, '/');
    assert Joined([file], ['/']) == file;
    JoinedAppend(front, [file], ['/']);
    SplitJoined(parts, '/');
    JoinSplit(dir, '/');
  }

  /** A definition in another document: the document's namespace prefixes
      the name and joins the imports. */
  lemma CrossDocumentDefinition(mainName: string, imports: set<string>, before: string, x: string)
    requires before != "" && '#' !in before && '#' !in x
    requires ValidTypeName(Library, Namespace(before) + "." + x)
    ensures CreateRefType(mainName, imports, before + "#/definitions/" + x) ==
      Ok((Ref(TypeName(Library, Namespace(before) + "." + x)), imports + {Namespace(before)}))
  {
    var after := DefinitionsPath + x;
    var ref := before + "#/definitions/" + x;
    assert ref == before + "#" + after;
    SplitDocument(before, after);
    CreateRefTypeParts(mainName, imports, ref, before, after);
    var ns := Namespace(before);
    FragmentDefinition(ns + ".", x);
  }

  /** A reference into another document: `xx/my.json#/definitions/a` is
      `My.A`, and `my` joins the imports. */
  lemma CrossDocumentExample(mainName: string, imports: set<string>, ref: string)
    requires ref == "xx/my.json#/definitions/a"
    ensures CreateRefType(mainName, imports, ref) == Ok((Ref("My.A"), imports + {"my"}))
  {
    var before, a := ref[..10], ref[24..];
    ExampleRefParts(ref, before, a);
    ExampleNamespace(before);
    ExampleTypeName(Namespace(before), a);
    CrossDocumentDefinition(mainName, imports, before, a);
  }

  lemma ExampleRefParts(ref: string, before: string, a: string)
    requires ref == "xx/my.json#/definitions/a"
    requires before == ref[..10] && a == ref[24..]
    ensures ref == before + "#/definitions/" + a
    ensures before == "xx/my.json" && a == "a"
  {
  }

  lemma ExampleNamespace(before: string)
    requires before == "xx/my.json"
    ensures Namespace(before) == "my"
  {
    var my := before[3..5];
    NamespaceOfFile("xx", my, "json");
    assert "xx" + "/" + my + "." + "json" == before;
  }

  lemma ExampleTypeName(my: string, a: string)
    requires my == "my" && a == "a"
    ensures ValidTypeName(Library, my + "." + a) && TypeName(Library, my + "." + a) == "My.A"
  {
    TwoSegmentName(my, a);
    PascalCaseLowerHead('m', "y");
    PascalCaseLowerHead('a', "");
    assert ['m'] + "y" == my && ['a'] + "" == a;
    assert UpperAscii('m') == 'M' && UpperAscii('a') == 'A';
    assert "My" + "." + "A" == "My.A";
  }

  /** The script resolves every reference into another document to `any`. */
  lemma ScriptCrossDocumentIsAny(mainName: string)
    ensures ScriptRefType(mainName, "xx/my.json#/definitions/a") == Ok(AnyType(Script))
  {
    assert "xx/my.json#/definitions/a"[0] != DefinitionsUri[0];
  }

  /** The import set a reference adds does not depend on the set it is
      added to, and the resolved type does not depend on it either. */
  lemma ImportsIndependent(mainName: string, a: set<string>, b: set<string>, ref: string)
    ensures CreateRefType(mainName, a, ref).Ok? == CreateRefType(mainName, b, ref).Ok?
    ensures CreateRefType(mainName, a, ref).Ok? ==>
      CreateRefType(mainName, a, ref).value.0 == CreateRefType(mainName, b, ref).value.0 &&
      CreateRefType(mainName, a, ref).value.1 == a + CreateRefType(mainName, {}, ref).value.1
  {
    if ref != "#" {
      var parts := Split(ref, '#');
      if |parts| == 2 {
        var before, after := parts[0], parts[1];
        assert parts == [before, after];
        CreateRefTypeParts(mainName, a, ref, before, after);
        CreateRefTypeParts(mainName, b, ref, before, after);
        CreateRefTypeParts(mainName, {}, ref, before, after);
        PrefixIndependent(a, b, before);
      }
    }
  }

  /** The prefix of a document does not depend on the import set, and the
      namespace it adds is the same whatever the set. */
  lemma PrefixIndependent(a: set<string>, b: set<string>, before: string)
    ensures TypePrefix(a, before).0 == TypePrefix(b, before).0 == TypePrefix({}, before).0
    ensures TypePrefix(a, before).1 == a + TypePrefix({}, before).1
  {
  }

  /** Resolving the same reference again adds nothing more. */
  lemma ImportsIdempotent(mainName: string, imports: set<string>, ref: string)
    requires CreateRefType(mainName, imports, ref).Ok?
    ensures CreateRefType(mainName, CreateRefType(mainName, imports, ref).value.1, ref) ==
      CreateRefType(mainName, imports, ref)
  {
  }

  /** A type name never starts with a lower-case letter, so a reference
      built by `refType` never has the name `string`: `Ts.union`'s identity
      test against the `string` constant and a test by name agree. */
  lemma RefTypeNeverString(d: Dialect, name: string)
    requires ValidTypeName(d, name)
    ensures |TypeName(d, name)| >= 1 && !('a' <= TypeName(d, name)[0] <= 'z')
    ensures RefType(d, name) != Ok(StringType)
  {
    match d
    case Script =>
    case Library =>
      var parts := Split(name, '.');
      var caps := PascalSegments(parts);
      JoinedHead(caps, ".");
      assert TypeName(Library, name)[..|caps[0]|] == caps[0];
      assert TypeName(Library, name)[0] == caps[0][0];
  }
}
