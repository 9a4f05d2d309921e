/** The Markdown builders of specflow/scripts/utils/format.js. */
module Format {
  import opened Wrappers
  import opened Strings
  import opened Seqs

  /** `heading(level, text)`: `level` hashes, a space, then the text. */
  function Heading(level: nat, text: string): (line: string)
    ensures |line| == level + 1 + |text|
  {
    Repeat('#', level) + " " + text
  }

  /** `bullet(text, indent)`: two spaces per indent level, "- ", then the
      text. */
  function Bullet(text: string, indent: nat): (line: string)
    ensures |line| == 2 * indent + 2 + |text|
  {
    Repeat(' ', 2 * indent) + "- " + text
  }

  /** The level and the text can be read back from a heading. */
  lemma HeadingDecode(level: nat, text: string)
    ensures var line := Heading(level, text);
            LeadingCount('#', line) == level && line[level] == ' ' && line[level + 1..] == text
  {
    var line := Heading(level, text);
    assert line == Repeat('#', level) + (" " + text);
    LeadingCountRepeat('#', level, " " + text);
  }

  /** The indent and the text can be read back from a bullet. */
  lemma BulletDecode(text: string, indent: nat)
    ensures var line := Bullet(text, indent);
            LeadingCount(' ', line) == 2 * indent && line[2 * indent..2 * indent + 2] == "- "
            && line[2 * indent + 2..] == text
  {
    var line := Bullet(text, indent);
    assert line == Repeat(' ', 2 * indent) + ("- " + text);
    LeadingCountRepeat(' ', 2 * indent, "- " + text);
  }

  /** `section(title, content)`: a level-2 heading, a blank line, the
      trimmed content and a newline. */
  function Section(title: string, content: string): (text: string)
    ensures Heading(2, title) + "\n\n" <= text
    ensures text[|text| - 1] == '\n'
  {
    Heading(2, title) + "\n\n" + Trim(content) + "\n"
  }

  /** Only the trimmed content matters: trimming it first changes nothing. */
  lemma SectionTrimsContent(title: string, content: string)
    ensures Section(title, Trim(content)) == Section(title, content)
  {
    TrimIdempotent(content);
  }

  lemma HeadingHasNoBreak(level: nat, text: string)
    requires '\n' !in text
    ensures '\n' !in Heading(level, text)
  {
    var line := Heading(level, text);
    forall i | 0 <= i < |line| ensures line[i] != '\n' {
      if i > level {
        assert line[i] == text[i - level - 1];
      }
    }
  }

  lemma TrimHasNoBreak(s: string)
    requires '\n' !in s
    ensures '\n' !in Trim(s)
  {
    var t := TrimStart(s);
    var r := TrimEnd(t);
    forall i | 0 <= i < |r| ensures r[i] != '\n' {
      assert r[i] == t[i] == s[|s| - |t| + i];
      assert s[|s| - |t| + i] in s;
    }
  }

  /** A string ended by a separator splits into its own pieces and an
      empty remainder. */
  lemma SplitTerminated(t: string, sep: char)
    ensures Split(t + [sep], sep) == Split(t, sep) + [[]]
  {
    var pieces := Split(t, sep);
    JoinSplit(t, sep);
    JoinAppend(pieces, [[]], sep);
    assert Join(pieces + [[]], sep) == t + [sep];
    SplitJoin(pieces + [[]], sep);
  }

  lemma SectionPieces(title: string, content: string)
    ensures Section(title, content) == Heading(2, title) + "\n" + ([] + "\n" + (Trim(content) + "\n"))
  {
    DoubledSeparatorPieces(Heading(2, title), '\n', Trim(content));
  }

  /** The lines of a section whose title holds no line break: the heading,
      a blank line, the lines of the trimmed content, and the empty
      remainder after the final newline. */
  lemma SectionLines(title: string, content: string)
    requires '\n' !in title
    ensures Split(Section(title, content), '\n') == [Heading(2, title), ""] + Split(Trim(content), '\n') + [""]
  {
    var h := Heading(2, title);
    var t := Trim(content);
    var rest := [] + "\n" + (t + "\n");
    HeadingHasNoBreak(2, title);
    calc {
      Split(Section(title, content), '\n');
      { SectionPieces(title, content); }
      Split(h + "\n" + rest, '\n');
      { SplitPiece(h, '\n', rest); }
      [h] + Split(rest, '\n');
      { SplitPiece([], '\n', t + "\n"); }
      [h] + ([""] + Split(t + "\n", '\n'));
      { SplitTerminated(t, '\n'); }
      [h] + ([""] + (Split(t, '\n') + [""]));
      { PrependTwo(h, "", Split(t, '\n'), [""]); }
      [h, ""] + Split(t, '\n') + [""];
    }
  }

  /** A one-line content gives one content line. */
  lemma OneLineSection(title: string, content: string)
    requires '\n' !in title && '\n' !in content
    ensures Split(Section(title, content), '\n') == [Heading(2, title), "", Trim(content), ""]
  {
    var t := Trim(content);
    TrimHasNoBreak(content);
    SplitSingle(t, '\n');
    SectionLines(title, content);
    assert [Heading(2, title), ""] + [t] + [""] == [Heading(2, title), "", t, ""];
  }

  /** `values.map((value) => bullet(value))`: one top-level bullet per
      value, in order. */
  function Bullets(values: seq<string>): (lines: seq<string>)
    ensures |lines| == |values|
    ensures forall k :: 0 <= k < |values| ==> lines[k] == "- " + values[k]
  {
    seq(|values|, k requires 0 <= k < |values| => Bullet(values[k], 0))
  }

  const EmptyPlaceholder := "*(empty)*"

  /** `listSection(title, values)`: a level-3 heading, a blank line, then
      one bullet per value or the empty placeholder, and a newline. `None`
      is an absent list. */
  function ListSection(title: string, values: Option<seq<string>>): (text: string)
    ensures Heading(3, title) + "\n\n" <= text
    ensures text[|text| - 1] == '\n'
  {
    if values.None? || values.value == [] then Heading(3, title) + "\n\n" + EmptyPlaceholder + "\n"
    else Heading(3, title) + "\n\n" + Join(Bullets(values.value), '\n') + "\n"
  }

  lemma PlaceholderHasNoBreak()
    ensures '\n' !in EmptyPlaceholder
  {
  }

  /** An absent or empty list gives the heading and the placeholder line. */
  lemma EmptyListLines(title: string, values: Option<seq<string>>)
    requires values.None? || values.value == []
    requires '\n' !in title
    ensures Split(ListSection(title, values), '\n') == [Heading(3, title), "", EmptyPlaceholder, ""]
  {
    var h := Heading(3, title);
    var e := EmptyPlaceholder;
    HeadingHasNoBreak(3, title);
    calc {
      Split(ListSection(title, values), '\n');
      { DoubledSeparatorPieces(h, '\n', e); }
      Split(h + "\n" + ([] + "\n" + (e + "\n")), '\n');
      { SplitPiece(h, '\n', [] + "\n" + (e + "\n")); }
      [h] + Split([] + "\n" + (e + "\n"), '\n');
      { SplitPiece([], '\n', e + "\n"); }
      [h] + ([""] + Split(e + "\n", '\n'));
      { SplitTerminated(e, '\n'); PlaceholderHasNoBreak(); SplitSingle(e, '\n'); }
      [h] + ([""] + ([e] + [""]));
      { PrependTwo(h, "", [e], [""]); }
      [h, ""] + [e] + [""];
      [h, "", e, ""];
    }
  }

  lemma BulletsHaveNoBreak(values: seq<string>)
    requires forall k :: 0 <= k < |values| ==> '\n' !in values[k]
    ensures forall k :: 0 <= k < |values| ==> '\n' !in Bullets(values)[k]
  {
    forall k | 0 <= k < |values| ensures '\n' !in Bullets(values)[k] {
      assert Bullets(values)[k] == "- " + values[k];
    }
  }

  /** A non-empty list gives the heading, a blank line, one bullet per value
      in order, and the empty remainder after the final newline. */
  lemma ListLines(title: string, values: seq<string>)
    requires values != []
    requires '\n' !in title && forall k :: 0 <= k < |values| ==> '\n' !in values[k]
    ensures Split(ListSection(title, Some(values)), '\n') == [Heading(3, title), ""] + Bullets(values) + [""]
  {
    var h := Heading(3, title);
    var b := Bullets(values);
    HeadingHasNoBreak(3, title);
    BulletsHaveNoBreak(values);
    var j := Join(b, '\n');
    calc {
      Split(ListSection(title, Some(values)), '\n');
      { DoubledSeparatorPieces(h, '\n', j); }
      Split(h + "\n" + ([] + "\n" + (j + "\n")), '\n');
      { SplitPiece(h, '\n', [] + "\n" + (j + "\n")); }
      [h] + Split([] + "\n" + (j + "\n"), '\n');
      { SplitPiece([], '\n', j + "\n"); }
      [h] + ([""] + Split(j + "\n", '\n'));
      { SplitTerminated(j, '\n'); SplitJoin(b, '\n'); }
      [h] + ([""] + (b + [""]));
      { PrependTwo(h, "", b, [""]); }
      [h, ""] + b + [""];
    }
  }
}
