/** The printer's line combinators.

    Every rendering is a finite sequence of lines rather than one string.
    `Wrap` glues a prefix onto the first line and a suffix onto the last,
    `Indent` shifts a block right, and `Join` strings several blocks
    together with a separator merged into the boundary lines. The
    TypeScript generators are modelled by the functions below; the
    methods `WrapLines` and `JoinLines` replay the generators' own state
    machines and are proved to produce the same lines.
 */
module Lines {
  import opened Results
  import opened Strings

  /** One indentation step. */
  const IndentUnit := "    "

  /** Prefix on the first line, suffix on the last; an empty block becomes
      the single line `prefix + suffix`. */
  function Wrap(lines: seq<string>, prefix: string, suffix: string): (r: seq<string>)
    ensures |r| == if |lines| == 0 then 1 else |lines|
    ensures |lines| == 0 ==> r == [prefix + suffix]
    ensures |lines| == 1 ==> r == [prefix + lines[0] + suffix]
    ensures |lines| >= 2 ==> r[0] == prefix + lines[0] && r[|r| - 1] == lines[|lines| - 1] + suffix
    ensures forall i :: 0 < i < |lines| - 1 ==> r[i] == lines[i]
  {
    if |lines| == 0 then [prefix + suffix]
    else if |lines| == 1 then [prefix + lines[0] + suffix]
    else [prefix + lines[0]] + lines[1..|lines| - 1] + [lines[|lines| - 1] + suffix]
  }

  /** Every line shifted right by one indentation step. */
  function Indent(lines: seq<string>): (r: seq<string>)
    ensures |r| == |lines|
    ensures forall i :: 0 <= i < |r| ==> r[i] == IndentUnit + lines[i]
  {
    seq(|lines|, i requires 0 <= i < |lines| => IndentUnit + lines[i])
  }

  /** One more block onto the lines produced so far: when something has
      been produced already, the separator goes onto its last line and the
      block's first line continues that same line (even an empty block
      leaves the separator behind). */
  function Glue(acc: seq<string>, block: seq<string>, separator: string): seq<string>
  {
    if |acc| == 0 then block
    else acc[..|acc| - 1] + Wrap(block, acc[|acc| - 1] + separator, "")
  }

  /** The blocks joined with `separator` merged into each boundary. */
  function Join(blocks: seq<seq<string>>, separator: string): seq<string>
  {
    if |blocks| == 0 then []
    else Glue(Join(blocks[..|blocks| - 1], separator), blocks[|blocks| - 1], separator)
  }

  /** Number of lines over all blocks. */
  function TotalLines(blocks: seq<seq<string>>): nat
  {
    if |blocks| == 0 then 0 else TotalLines(blocks[..|blocks| - 1]) + |blocks[|blocks| - 1]|
  }

  /** Number of blocks holding at least one line. */
  function NonEmptyBlocks(blocks: seq<seq<string>>): nat
  {
    if |blocks| == 0 then 0
    else NonEmptyBlocks(blocks[..|blocks| - 1]) + (if |blocks[|blocks| - 1]| > 0 then 1 else 0)
  }

  /** The text of a block once its lines are written out with `newline`. */
  function Text(lines: seq<string>, newline: string): string
  {
    Joined(lines, newline)
  }

  function Texts(blocks: seq<seq<string>>, newline: string): (r: seq<string>)
    ensures |r| == |blocks|
    ensures forall k :: 0 <= k < |blocks| ==> r[k] == Text(blocks[k], newline)
  {
    seq(|blocks|, k requires 0 <= k < |blocks| => Text(blocks[k], newline))
  }

  /** Wrapping never adds or removes a line break: the written-out text is
      the block's text between prefix and suffix. */
  lemma {:induction false} WrapText(lines: seq<string>, prefix: string, suffix: string, newline: string)
    ensures Text(Wrap(lines, prefix, suffix), newline) == prefix + Text(lines, newline) + suffix
  {
    var n := |lines|;
    if n >= 2 {
      var middle := lines[1..n - 1];
      var last := lines[n - 1];
      assert lines == [lines[0]] + (middle + [last]);
      assert Wrap(lines, prefix, suffix) == [prefix + lines[0]] + (middle + [last + suffix]);
      JoinedCons(lines[0], middle + [last], newline);
      JoinedCons(prefix + lines[0], middle + [last + suffix], newline);
      JoinedLastSuffix(middle, last, suffix, newline);
    }
  }

  /** A join of at least two parts starts with the first part and one
      separator. */
  lemma JoinedCons(first: string, rest: seq<string>, sep: string)
    requires |rest| >= 1
    ensures Joined([first] + rest, sep) == first + sep + Joined(rest, sep)
  {
    assert ([first] + rest)[1..] == rest;
  }

  /** A suffix on the last part is a suffix on the whole join. */
  lemma JoinedLastSuffix(middle: seq<string>, last: string, suffix: string, sep: string)
    ensures Joined(middle + [last + suffix], sep) == Joined(middle + [last], sep) + suffix
  {
    if |middle| == 0 {
      assert middle + [last] == [last];
      assert middle + [last + suffix] == [last + suffix];
    } else {
      JoinedAppend(middle, [last], sep);
      JoinedAppend(middle, [last + suffix], sep);
    }
  }

  /** The output is empty exactly when every block is; otherwise every
      boundary between non-empty blocks merges two lines into one, so the
      separator is never a line of its own. */
  lemma {:induction false} JoinLineCount(blocks: seq<seq<string>>, separator: string)
    ensures |Join(blocks, separator)| == 0 <==> forall k :: 0 <= k < |blocks| ==> |blocks[k]| == 0
    ensures NonEmptyBlocks(blocks) > 0 ==>
      |Join(blocks, separator)| == TotalLines(blocks) - NonEmptyBlocks(blocks) + 1
    ensures NonEmptyBlocks(blocks) == 0 <==> forall k :: 0 <= k < |blocks| ==> |blocks[k]| == 0
  {
    if |blocks| > 0 {
      var n := |blocks|;
      var front := blocks[..n - 1];
      JoinLineCount(front, separator);
      assert forall k :: 0 <= k < n - 1 ==> front[k] == blocks[k];
      if NonEmptyBlocks(front) == 0 {
        assert TotalLines(front) == 0 by { NoLinesWhenAllEmpty(front); }
      }
    }
  }

  lemma {:induction false} NoLinesWhenAllEmpty(blocks: seq<seq<string>>)
    requires forall k :: 0 <= k < |blocks| ==> |blocks[k]| == 0
    ensures TotalLines(blocks) == 0
  {
    if |blocks| > 0 {
      NoLinesWhenAllEmpty(blocks[..|blocks| - 1]);
    }
  }

  /** Gluing a block onto produced lines puts the separator between
      their texts. */
  lemma GlueText(acc: seq<string>, block: seq<string>, separator: string, newline: string)
    requires |acc| >= 1
    ensures Text(Glue(acc, block, separator), newline) == Text(acc, newline) + separator + Text(block, newline)
  {
    var m := |acc|;
    var head := acc[..m - 1];
    var w := Wrap(block, acc[m - 1] + separator, "");
    WrapText(block, acc[m - 1] + separator, "", newline);
    assert acc == head + [acc[m - 1]];
    if m >= 2 {
      JoinedAppend(head, w, newline);
      JoinedAppend(head, [acc[m - 1]], newline);
    } else {
      assert head + w == w;
    }
  }

  /** Written out, a join whose first block is non-empty is the blocks'
      texts separated by the separator. */
  lemma {:induction false} JoinText(blocks: seq<seq<string>>, separator: string, newline: string)
    requires |blocks| >= 1 && |blocks[0]| >= 1
    ensures |Join(blocks, separator)| >= 1
    ensures Text(Join(blocks, separator), newline) == Joined(Texts(blocks, newline), separator)
  {
    var n := |blocks|;
    if n == 1 {
      assert Join(blocks, separator) == Glue([], blocks[0], separator);
    } else {
      var front := blocks[..n - 1];
      JoinText(front, separator, newline);
      GlueText(Join(front, separator), blocks[n - 1], separator, newline);
      assert Texts(blocks, newline) == Texts(front, newline) + [Text(blocks[n - 1], newline)];
      JoinedAppend(Texts(front, newline), [Text(blocks[n - 1], newline)], separator);
    }
  }

  /** When every block is exactly one line, the join is one line: those
      lines separated by the separator. */
  lemma JoinSingleLines(blocks: seq<seq<string>>, separator: string)
    requires |blocks| >= 1
    requires forall k :: 0 <= k < |blocks| ==> |blocks[k]| == 1
    ensures Join(blocks, separator) == [Joined(seq(|blocks|, k requires 0 <= k < |blocks| => blocks[k][0]), separator)]
  {
    JoinLineCount(blocks, separator);
    SingleLineTotals(blocks);
    JoinText(blocks, separator, "");
    var heads := seq(|blocks|, k requires 0 <= k < |blocks| => blocks[k][0]);
    assert Texts(blocks, "") == heads;
  }

  lemma {:induction false} SingleLineTotals(blocks: seq<seq<string>>)
    requires forall k :: 0 <= k < |blocks| ==> |blocks[k]| == 1
    ensures TotalLines(blocks) == |blocks| && NonEmptyBlocks(blocks) == |blocks|
  {
    if |blocks| > 0 {
      SingleLineTotals(blocks[..|blocks| - 1]);
    }
  }

  /** A further line after at least one: the old lines stay, the new one
      comes last (with an empty suffix). */
  lemma WrapSnoc(lines: seq<string>, prefix: string, v: string)
    requires |lines| >= 1
    ensures Wrap(lines + [v], prefix, "") == Wrap(lines, prefix, "") + [v]
  {
    var l := Wrap(lines + [v], prefix, "");
    var r := Wrap(lines, prefix, "") + [v];
    assert |l| == |r|;
    forall i | 0 <= i < |l| ensures l[i] == r[i] {
      if i == |lines| - 1 && i > 0 {
        assert (lines + [v])[i] == lines[i];
        assert lines[i] + "" == lines[i];
      } else if i == 0 && |lines| == 1 {
        assert prefix + lines[0] + "" == prefix + lines[0];
      } else if 0 < i < |lines| - 1 {
        assert (lines + [v])[i] == lines[i];
      }
    }
  }

  /** The suffix only touches the last line. */
  lemma WrapSuffix(lines: seq<string>, prefix: string, suffix: string)
    requires |lines| >= 1
    ensures Wrap(lines, prefix, suffix) ==
      Wrap(lines, prefix, "")[..|lines| - 1] + [Wrap(lines, prefix, "")[|lines| - 1] + suffix]
  {
    var n := |lines|;
    if n == 1 {
      assert prefix + lines[0] + "" == prefix + lines[0];
    } else {
      assert lines[n - 1] + "" == lines[n - 1];
    }
  }

  lemma GlueSnoc(acc: seq<string>, block: seq<string>, separator: string, v: string)
    ensures |block| >= 1 ==> Glue(acc, block + [v], separator) == Glue(acc, block, separator) + [v]
    ensures |block| == 0 && |acc| == 0 ==> Glue(acc, [v], separator) == [v]
    ensures |block| == 0 && |acc| >= 1 ==>
      Glue(acc, [v], separator) == acc[..|acc| - 1] + [acc[|acc| - 1] + separator + v]
    ensures |block| == 0 && |acc| >= 1 ==>
      Glue(acc, [], separator) == acc[..|acc| - 1] + [acc[|acc| - 1] + separator]
  {
    if |block| >= 1 && |acc| >= 1 {
      WrapSnoc(block, acc[|acc| - 1] + separator, v);
    }
    if |acc| >= 1 {
      var p := acc[|acc| - 1] + separator;
      assert p + v + "" == p + v;
      assert p + "" == p;
    }
  }

  /** The block's first line continues the held line, or starts the
      output when nothing is held. */
  lemma FirstLineStep(acc: seq<string>, done: seq<string>, emitted: seq<string>, previous: Option<string>, v: string, separator: string)
    requires |done| == 0
    requires |acc| == 0 ==> previous.None? && emitted == []
    requires |acc| > 0 ==> emitted == acc[..|acc| - 1] && previous == Some(acc[|acc| - 1] + separator)
    ensures emitted + (if previous.None? then [v] else [previous.value + v]) == Glue(acc, done + [v], separator)
  {
    assert done + [v] == [v];
    GlueSnoc(acc, [], separator, v);
  }

  /** Every later line of the block releases the held line. */
  lemma NextLineStep(acc: seq<string>, done: seq<string>, emitted: seq<string>, held: string, v: string, separator: string)
    requires |done| >= 1
    requires emitted + [held] == Glue(acc, done, separator)
    ensures (emitted + [held]) + [v] == Glue(acc, done + [v], separator)
  {
    GlueSnoc(acc, done, separator, v);
  }

  /** `wrap` as the generator runs it: hold back the latest line, emit the
      held line whenever a newer one arrives, and put the suffix on the last
      held line (or emit `prefix + suffix` when nothing arrived). */
  method WrapLines(lines: seq<string>, prefix: string, suffix: string) returns (out: seq<string>)
    ensures out == Wrap(lines, prefix, suffix)
  {
    var emitted: seq<string> := [];
    var previous: Option<string> := None;
    for k := 0 to |lines|
      invariant k == 0 <==> previous.None?
      invariant k == 0 ==> emitted == []
      invariant k > 0 ==> emitted + [previous.value] == Wrap(lines[..k], prefix, "")
    {
      var v := lines[k];
      if previous.Some? {
        emitted := emitted + [previous.value];
        previous := Some(v);
      } else {
        previous := Some(prefix + v);
        assert prefix + v + "" == prefix + v;
      }
      assert lines[..k + 1] == lines[..k] + [v];
      if k > 0 {
        WrapSnoc(lines[..k], prefix, v);
      }
    }
    if previous.Some? {
      assert lines[..|lines|] == lines;
      WrapSuffix(lines, prefix, suffix);
      out := emitted + [previous.value + suffix];
    } else {
      out := [prefix + suffix];
    }
  }

  /** `join` as the generator runs it: a held-back line, the separator
      appended to it at every block boundary, a block's first line appended
      to it, and every later line of the block released one step behind. */
  method JoinLines(blocks: seq<seq<string>>, separator: string) returns (out: seq<string>)
    ensures out == Join(blocks, separator)
  {
    var emitted: seq<string> := [];
    var previous: Option<string> := None;
    for k := 0 to |blocks|
      invariant previous.None? ==> emitted == []
      invariant emitted + previous.ToSeq() == Join(blocks[..k], separator)
    {
      emitted, previous := JoinBlock(emitted, previous, blocks[k], separator);
      assert blocks[..k + 1][..k] == blocks[..k];
    }
    assert blocks[..|blocks|] == blocks;
    out := emitted + previous.ToSeq();
  }

  /** One step of `join`'s outer loop: the separator appended to the held
      line, then the block's lines fed through. */
  method JoinBlock(emitted0: seq<string>, previous0: Option<string>, block: seq<string>, separator: string)
    returns (emitted: seq<string>, previous: Option<string>)
    requires previous0.None? ==> emitted0 == []
    ensures previous.None? ==> emitted == []
    ensures emitted + previous.ToSeq() == Glue(emitted0 + previous0.ToSeq(), block, separator)
  {
    ghost var acc := emitted0 + previous0.ToSeq();
    emitted, previous := HoldSeparator(acc, emitted0, previous0, separator);
    ghost var held, start := previous, emitted;
    var first := true;
    for j := 0 to |block|
      invariant first <==> j == 0
      invariant j == 0 ==> emitted == start && previous == held
      invariant previous.None? ==> emitted == []
      invariant emitted + previous.ToSeq() == Glue(acc, block[..j], separator)
    {
      emitted, previous := FeedLine(acc, block, j, emitted, previous, first, block[j], separator);
      first := false;
    }
    assert block[..|block|] == block;
  }

  /** The separator goes onto the held line, if there is one. */
  method HoldSeparator(ghost acc: seq<string>, emitted0: seq<string>, previous0: Option<string>, separator: string)
    returns (emitted: seq<string>, previous: Option<string>)
    requires previous0.None? ==> emitted0 == []
    requires acc == emitted0 + previous0.ToSeq()
    ensures |acc| == 0 ==> previous.None? && emitted == []
    ensures |acc| > 0 ==> emitted == acc[..|acc| - 1] && previous == Some(acc[|acc| - 1] + separator)
    ensures emitted + previous.ToSeq() == Glue(acc, [], separator)
  {
    emitted, previous := emitted0, previous0;
    if previous.Some? {
      previous := Some(previous.value + separator);
      assert acc[..|acc| - 1] == emitted;
    }
    GlueSnoc(acc, [], separator, "");
  }

  /** Line `j` of a block fed through: the first continues the held line,
      every later one releases it. */
  method FeedLine(ghost acc: seq<string>, ghost block: seq<string>, ghost j: nat, emitted0: seq<string>, previous0: Option<string>,
                  first: bool, v: string, separator: string)
    returns (emitted: seq<string>, previous: Option<string>)
    requires j < |block| && v == block[j]
    requires first <==> j == 0
    requires first && |acc| == 0 ==> previous0.None? && emitted0 == []
    requires first && |acc| > 0 ==>
      emitted0 == acc[..|acc| - 1] && previous0 == Some(acc[|acc| - 1] + separator)
    requires !first ==> previous0.Some? && emitted0 + [previous0.value] == Glue(acc, block[..j], separator)
    ensures previous.Some?
    ensures emitted + previous.ToSeq() == Glue(acc, block[..j + 1], separator)
  {
    assert block[..j + 1] == block[..j] + [v];
    if first {
      FirstLineStep(acc, block[..j], emitted0, previous0, v, separator);
      emitted := emitted0;
      previous := if previous0.None? then Some(v) else Some(previous0.value + v);
    } else {
      NextLineStep(acc, block[..j], emitted0, previous0.value, v, separator);
      emitted := emitted0 + [previous0.value];
      previous := Some(v);
    }
  }
}
