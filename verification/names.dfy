/** Name normalisation: `pascalCase`, `typeName` in both generations, and
    `propertyName`.

    The library splits a name on `.` and capitalises every segment, so that
    `my.a` becomes `My.A`; the script capitalises only the first character of
    the whole name. Both turn every `-` into `_`. Capitalising reads the
    first character of a segment, which raises on an empty segment: the
    names that do not raise are `ValidTypeName`.
 */
module Names {
  import opened Strings
  import opened Results
  import opened TypeIR

  /** `pascalCase`: the first character upper-cased, then hyphens turned
      into underscores. */
  function PascalCase(s: string): (r: string)
    requires |s| > 0
    ensures |r| == |s|
    ensures '-' !in r
    ensures r[0] == (if s[0] == '-' then '_' else UpperAscii(s[0]))
    ensures forall i :: 1 <= i < |s| ==> r[i] == (if s[i] == '-' then '_' else s[i])
  {
    Underscored([UpperAscii(s[0])] + s[1..])
  }

  /** Capitalising twice is capitalising once. */
  lemma PascalCaseIdempotent(s: string)
    requires |s| > 0
    ensures PascalCase(PascalCase(s)) == PascalCase(s)
  {
    var r := PascalCase(s);
    var rr := PascalCase(r);
    forall i | 0 <= i < |r| ensures rr[i] == r[i] {
    }
  }

  /** A name that already starts with a capital and has no hyphen is left
      alone. */
  lemma PascalCaseFixed(s: string)
    requires |s| > 0 && '-' !in s && !('a' <= s[0] <= 'z')
    ensures PascalCase(s) == s
  {
  }

  /** A lower-case head is capitalised, the rest kept. */
  lemma PascalCaseLowerHead(c: char, rest: string)
    requires 'a' <= c <= 'z' && '-' !in rest
    ensures PascalCase([c] + rest) == [UpperAscii(c)] + rest
  {
  }

  /** Capitalisation never creates or removes a dot. */
  lemma PascalCaseKeepsDots(s: string)
    requires |s| > 0
    ensures '.' in PascalCase(s) <==> '.' in s
  {
    var r := PascalCase(s);
    forall i | 0 <= i < |s| ensures r[i] == '.' <==> s[i] == '.' {
    }
  }

  /** `pascalCase` mapped over the dot segments of a name. */
  function PascalSegments(parts: seq<string>): (r: seq<string>)
    requires forall i :: 0 <= i < |parts| ==> |parts[i]| > 0
    ensures |r| == |parts|
    ensures forall i :: 0 <= i < |r| ==> r[i] == PascalCase(parts[i])
  {
    seq(|parts|, i requires 0 <= i < |parts| => PascalCase(parts[i]))
  }

  /** The names `typeName` accepts without raising. */
  predicate ValidTypeName(d: Dialect, name: string)
  {
    match d
    case Library => forall i :: 0 <= i < |Split(name, '.')| ==> |Split(name, '.')[i]| > 0
    case Script => |name| > 0
  }

  /** `typeName`. */
  function TypeName(d: Dialect, name: string): string
    requires ValidTypeName(d, name)
  {
    match d
    case Library => Joined(PascalSegments(Split(name, '.')), ".")
    case Script => PascalCase(name)
  }

  /** `typeName`, with the exception the source raises on an empty segment. */
  function TryTypeName(d: Dialect, name: string): (r: Result<string>)
    ensures r.Ok? <==> ValidTypeName(d, name)
    ensures r.Ok? ==> r.value == TypeName(d, name)
  {
    if ValidTypeName(d, name) then Ok(TypeName(d, name)) else Throws
  }

  /** `e` is what normalising a name can make of the character `c`. */
  predicate Normalised(e: char, c: char)
  {
    e == c || e == UpperAscii(c) || e == '_'
  }

  /** A type name ends with the name's last character, capitalised when
      it heads a segment, or an underscore for a hyphen. */
  lemma TypeNameLast(d: Dialect, name: string)
    requires ValidTypeName(d, name) && |name| >= 1
    ensures |TypeName(d, name)| >= 1
    ensures Normalised(TypeName(d, name)[|TypeName(d, name)| - 1], name[|name| - 1])
  {
    match d
    case Library =>
      LibraryNameLast(name);
    case Script =>
      ScriptNameLast(name);
  }

  lemma ScriptNameLast(name: string)
    requires |name| >= 1
    ensures |TypeName(Script, name)| >= 1
    ensures Normalised(TypeName(Script, name)[|TypeName(Script, name)| - 1], name[|name| - 1])
  {
    var t := TypeName(Script, name);
    assert t == PascalCase(name);
    PascalCaseLast(name);
    assert |t| == |name|;
    NormalisedSame(PascalCase(name)[|name| - 1], name[|name| - 1], t[|t| - 1], name[|name| - 1]);
  }

  lemma LibraryNameLast(name: string)
    requires ValidTypeName(Library, name) && |name| >= 1
    ensures |TypeName(Library, name)| >= 1
    ensures Normalised(TypeName(Library, name)[|TypeName(Library, name)| - 1], name[|name| - 1])
  {
    var parts := Split(name, '.');
    JoinSplit(name, '.');
    assert ['.'] == ".";
    var t := TypeName(Library, name);
    LastOfLibraryName(name, t);
    SegmentsEndsNormalised(parts, name, t);
  }

  /** Joining the capitalised segments ends in a normalised form of the
      last character of the joined segments. */
  lemma SegmentsEndsNormalised(parts: seq<string>, name: string, t: string)
    requires |parts| >= 1 && forall i :: 0 <= i < |parts| ==> |parts[i]| > 0
    requires Joined(parts, ".") == name && t == Joined(PascalSegments(parts), ".")
    ensures |t| >= 1 && Normalised(t[|t| - 1], name[|name| - 1])
  {
    var caps := PascalSegments(parts);
    var capital, tail := caps[|caps| - 1], parts[|parts| - 1];
    LastCapital(parts, caps, capital, tail);
    JoinedEndsWithLast(parts, ".", tail);
    JoinedEndsWithLast(caps, ".", capital);
    NormalisedSame(capital[|capital| - 1], tail[|tail| - 1], t[|t| - 1], name[|name| - 1]);
  }

  lemma NormalisedSame(e: char, c: char, e': char, c': char)
    requires Normalised(e, c) && e' == e && c' == c
    ensures Normalised(e', c')
  {
  }

  /** The last capitalised segment ends in a normalised form of the last
      segment's last character. */
  lemma LastCapital(parts: seq<string>, caps: seq<string>, capital: string, tail: string)
    requires |parts| >= 1 && forall i :: 0 <= i < |parts| ==> |parts[i]| > 0
    requires caps == PascalSegments(parts) && capital == caps[|caps| - 1] && tail == parts[|parts| - 1]
    ensures |capital| == |tail| >= 1 && Normalised(capital[|capital| - 1], tail[|tail| - 1])
  {
    assert capital == PascalCase(tail);
    PascalCaseLast(tail);
  }

  lemma LastOfLibraryName(name: string, t: string)
    requires ValidTypeName(Library, name) && t == TypeName(Library, name)
    ensures t == Joined(PascalSegments(Split(name, '.')), ".")
  {
  }

  /** Capitalising keeps the last character, up to capitalisation and
      hyphens. */
  lemma PascalCaseLast(s: string)
    requires |s| >= 1
    ensures Normalised(PascalCase(s)[|s| - 1], s[|s| - 1])
  {
  }

  /** A name's type-name has the same dot segments, each capitalised: the
      library changes nothing but the segment heads and hyphens. */
  lemma TypeNameSegments(name: string)
    requires ValidTypeName(Library, name)
    ensures Split(TypeName(Library, name), '.') == PascalSegments(Split(name, '.'))
  {
    var parts := Split(name, '.');
    var caps := PascalSegments(parts);
    forall i | 0 <= i < |caps| ensures '.' !in caps[i] {
      PascalCaseKeepsDots(parts[i]);
    }
    SplitJoined(caps, '.');
  }

  /** Type names are fixed points: normalising a normalised name changes
      nothing, in both generations. */
  lemma TypeNameIdempotent(d: Dialect, name: string)
    requires ValidTypeName(d, name)
    ensures ValidTypeName(d, TypeName(d, name))
    ensures TypeName(d, TypeName(d, name)) == TypeName(d, name)
  {
    match d
    case Script =>
      PascalCaseIdempotent(name);
    case Library =>
      var t := TypeName(Library, name);
      var caps := PascalSegments(Split(name, '.'));
      TypeNameSegments(name);
      assert Split(t, '.') == caps;
      var again := PascalSegments(caps);
      forall i | 0 <= i < |caps| ensures again[i] == caps[i] {
        PascalCaseIdempotent(Split(name, '.')[i]);
      }
      assert again == caps;
  }

  /** On a name without dots both generations agree. */
  lemma TypeNameWithoutDots(name: string)
    requires |name| > 0 && '.' !in name
    ensures ValidTypeName(Library, name) && ValidTypeName(Script, name)
    ensures TypeName(Library, name) == TypeName(Script, name)
  {
    SplitWithout(name, '.');
  }

  /** A name without dots is one segment. */
  lemma OneSegmentName(a: string)
    requires |a| > 0 && '.' !in a
    ensures ValidTypeName(Library, a) && TypeName(Library, a) == PascalCase(a)
  {
    SplitWithout(a, '.');
  }

  /** A name with one dot is two segments, each capitalised. */
  lemma TwoSegmentName(a: string, b: string)
    requires |a| > 0 && '.' !in a && |b| > 0 && '.' !in b
    ensures ValidTypeName(Library, a + "." + b)
    ensures TypeName(Library, a + "." + b) == PascalCase(a) + "." + PascalCase(b)
  {
    SplitAtFirst(a, '.', b);
    SplitWithout(b, '.');
    assert a + ['.'] + b == a + "." + b;
    assert Split(a + "." + b, '.') == [a, b];
    var caps := PascalSegments([a, b]);
    assert caps[0] == PascalCase(a);
    assert caps[1..] == [PascalCase(b)];
    assert Joined(caps[1..], ".") == PascalCase(b);
    assert Joined(caps, ".") == PascalCase(a) + "." + PascalCase(b);
  }

  /** Two segments that are already capitalised and free of hyphens make
      a type name of their own. */
  lemma TwoSegmentNameFixed(a: string, b: string)
    requires |a| > 0 && '.' !in a && '-' !in a && !('a' <= a[0] <= 'z')
    requires |b| > 0 && '.' !in b && '-' !in b && !('a' <= b[0] <= 'z')
    ensures ValidTypeName(Library, a + "." + b) && TypeName(Library, a + "." + b) == a + "." + b
  {
    TwoSegmentName(a, b);
    PascalCaseFixed(a);
    PascalCaseFixed(b);
  }

  /** With a dot they differ: the library capitalises each segment, the
      script only the head of the whole name. */
  lemma TypeNameOnDottedName()
    ensures ValidTypeName(Library, "a.b") && TypeName(Library, "a.b") == "A.B"
    ensures ValidTypeName(Script, "a.b") && TypeName(Script, "a.b") == "A.b"
  {
    TwoSegmentName("a", "b");
    assert "a" + "." + "b" == "a.b";
    PascalCaseLowerHead('a', "");
    PascalCaseLowerHead('b', "");
    PascalCaseLowerHead('a', ".b");
    assert ['a'] + "" == "a" && ['b'] + "" == "b" && ['a'] + ".b" == "a.b";
  }

  /** An empty segment is rejected: `typeName("")`, `typeName("a.")`. */
  lemma EmptySegmentRaises()
    ensures TryTypeName(Library, "") == Throws && TryTypeName(Script, "") == Throws
    ensures TryTypeName(Library, "a.") == Throws
  {
    assert Split("", '.') == [""];
    SplitAtFirst("a", '.', "");
    assert "a" + ['.'] + "" == "a.";
  }

  /** `propertyName`: every hyphen becomes an underscore, nothing else
      changes. */
  function PropertyName(name: string): (r: string)
    ensures |r| == |name|
    ensures '-' !in r
    ensures forall i :: 0 <= i < |name| && name[i] == '-' ==> r[i] == '_'
    ensures forall i :: 0 <= i < |name| && name[i] != '-' ==> r[i] == name[i]
  {
    Underscored(name)
  }

  /** A property name is already normalised. */
  lemma PropertyNameIdempotent(name: string)
    ensures PropertyName(PropertyName(name)) == PropertyName(name)
  {
  }
}
