/**
 * The two string helpers of the mask debug screen (src/screens/MaskDebugScreen.ts):
 * HTML escaping and the serialisation of a mask to TypeScript source text.
 * `EscapeEach` (a per-character table) and `DecodeMaskCode` (a reader for the
 * generated text) are the independent definitions they are proved against.
 */
module MaskDebug {
  import opened Options
  import Mask

  // ---------------------------------------------------------------------------
  // escapeHtml

  /** String.replace with a global one-character pattern: every `c` becomes `rep`. */
  function ReplaceAll(s: string, c: char, rep: string): (r: string)
    ensures forall ch :: ch in r ==> ch in rep || (ch in s && ch != c)
  {
    if s == [] then [] else (if s[0] == c then rep else [s[0]]) + ReplaceAll(s[1..], c, rep)
  }

  /** escapeHtml: the five replacements in the source's order, `&` first. */
  function EscapeHtml(unsafe: string): (r: string)
    ensures '<' !in r && '>' !in r && '"' !in r && '\'' !in r
  {
    ReplaceAll(ReplaceAll(ReplaceAll(ReplaceAll(ReplaceAll(
      unsafe, '&', "&amp;"), '<', "&lt;"), '>', "&gt;"), '"', "&quot;"), '\'', "&#039;")
  }

  /** The entity table: what each character becomes. */
  function EscapeChar(ch: char): string {
    match ch
    case '&' => "&amp;"
    case '<' => "&lt;"
    case '>' => "&gt;"
    case '"' => "&quot;"
    case '\'' => "&#039;"
    case _ => [ch]
  }

  /** Character-by-character substitution by the entity table. */
  function EscapeEach(s: string): string {
    if s == [] then [] else EscapeChar(s[0]) + EscapeEach(s[1..])
  }

  predicate IsSpecial(ch: char) {
    ch == '&' || ch == '<' || ch == '>' || ch == '"' || ch == '\''
  }

  lemma {:induction false} ReplaceAllConcat(a: string, b: string, c: char, rep: string)
    ensures ReplaceAll(a + b, c, rep) == ReplaceAll(a, c, rep) + ReplaceAll(b, c, rep)
  {
    if a == [] {
      assert a + b == b;
    } else {
      assert (a + b)[1..] == a[1..] + b;
      ReplaceAllConcat(a[1..], b, c, rep);
    }
  }

  lemma {:induction false} ReplaceAllAbsent(s: string, c: char, rep: string)
    requires c !in s
    ensures ReplaceAll(s, c, rep) == s
  {
    if s != [] {
      ReplaceAllAbsent(s[1..], c, rep);
    }
  }

  lemma ReplaceAllOne(ch: char, c: char, rep: string)
    ensures ReplaceAll([ch], c, rep) == if ch == c then rep else [ch]
  {
    assert [ch][1..] == [];
  }

  /** escapeHtml distributes over concatenation. */
  lemma EscapeHtmlConcat(a: string, b: string)
    ensures EscapeHtml(a + b) == EscapeHtml(a) + EscapeHtml(b)
  {
    var a1, b1 := ReplaceAll(a, '&', "&amp;"), ReplaceAll(b, '&', "&amp;");
    ReplaceAllConcat(a, b, '&', "&amp;");
    var a2, b2 := ReplaceAll(a1, '<', "&lt;"), ReplaceAll(b1, '<', "&lt;");
    ReplaceAllConcat(a1, b1, '<', "&lt;");
    var a3, b3 := ReplaceAll(a2, '>', "&gt;"), ReplaceAll(b2, '>', "&gt;");
    ReplaceAllConcat(a2, b2, '>', "&gt;");
    var a4, b4 := ReplaceAll(a3, '"', "&quot;"), ReplaceAll(b3, '"', "&quot;");
    ReplaceAllConcat(a3, b3, '"', "&quot;");
    ReplaceAllConcat(a4, b4, '\'', "&#039;");
  }

  /** On one character, escapeHtml is the entity table: no replacement text is rewritten by a later replacement. */
  lemma EscapeHtmlChar(ch: char)
    ensures EscapeHtml([ch]) == EscapeChar(ch)
  {
    ReplaceAllOne(ch, '&', "&amp;");
    if ch == '&' {
      EscapeRest("&amp;", 1);
    } else {
      ReplaceAllOne(ch, '<', "&lt;");
      if ch == '<' {
        EscapeRest("&lt;", 2);
      } else {
        ReplaceAllOne(ch, '>', "&gt;");
        if ch == '>' {
          EscapeRest("&gt;", 3);
        } else {
          ReplaceAllOne(ch, '"', "&quot;");
          if ch == '"' {
            EscapeRest("&quot;", 4);
          } else {
            ReplaceAllOne(ch, '\'', "&#039;");
          }
        }
      }
    }
  }

  /** The replacements after step k leave an entity produced at step k untouched. */
  lemma EscapeRest(entity: string, k: nat)
    requires 1 <= k <= 4
    requires '<' !in entity && '>' !in entity && '"' !in entity && '\'' !in entity
    ensures k <= 1 ==> ReplaceAll(entity, '<', "&lt;") == entity
    ensures k <= 2 ==> ReplaceAll(entity, '>', "&gt;") == entity
    ensures k <= 3 ==> ReplaceAll(entity, '"', "&quot;") == entity
    ensures ReplaceAll(entity, '\'', "&#039;") == entity
  {
    ReplaceAllAbsent(entity, '<', "&lt;");
    ReplaceAllAbsent(entity, '>', "&gt;");
    ReplaceAllAbsent(entity, '"', "&quot;");
    ReplaceAllAbsent(entity, '\'', "&#039;");
  }

  /** escapeHtml equals the per-character substitution by the entity table. */
  lemma {:induction false} EscapeHtmlIsPerChar(s: string)
    ensures EscapeHtml(s) == EscapeEach(s)
  {
    if s != [] {
      assert s == [s[0]] + s[1..];
      EscapeHtmlConcat([s[0]], s[1..]);
      EscapeHtmlChar(s[0]);
      EscapeHtmlIsPerChar(s[1..]);
    }
  }

  /** A string with none of the five special characters is returned unchanged. */
  lemma EscapeHtmlPlain(s: string)
    requires forall i :: 0 <= i < |s| ==> !IsSpecial(s[i])
    ensures EscapeHtml(s) == s
  {
    ReplaceAllAbsent(s, '&', "&amp;");
    ReplaceAllAbsent(s, '<', "&lt;");
    ReplaceAllAbsent(s, '>', "&gt;");
    ReplaceAllAbsent(s, '"', "&quot;");
    ReplaceAllAbsent(s, '\'', "&#039;");
  }

  // ---------------------------------------------------------------------------
  // generateMaskCode

  /** Array.join: the parts with `sep` between neighbours. */
  function Join(parts: seq<string>, sep: string): (r: string)
    ensures |parts| >= 1 ==> |r| >= |parts[0]|
    ensures forall ch :: ch in r ==> ch in sep || exists i :: 0 <= i < |parts| && ch in parts[i]
  {
    if |parts| == 0 then ""
    else if |parts| == 1 then parts[0]
    else parts[0] + sep + Join(parts[1..], sep)
  }

  function CellText(cell: bool): string {
    if cell then "true" else "false"
  }

  function CellTexts(row: seq<bool>): seq<string> {
    seq(|row|, x requires 0 <= x < |row| => CellText(row[x]))
  }

  /** One row of the generated array literal. */
  function RowLine(row: seq<bool>): string {
    "  [" + Join(CellTexts(row), ", ") + "],"
  }

  function RowLines(mask: Mask.EmojiMask): seq<string> {
    seq(|mask|, y requires 0 <= y < |mask| => RowLine(mask[y]))
  }

  /** generateMaskCode: a comment naming the emoji, then the mask as a TypeScript array literal. */
  function GenerateMaskCode(mask: Mask.EmojiMask, emoji: string): string {
    "// Mask for " + emoji + "\nconst MASK: EmojiMask = [\n" + Join(RowLines(mask), "\n") + "\n];"
  }

  /** The generated text opens with the header line naming the emoji and closes with "];". */
  lemma GenerateMaskCodeEnds(mask: Mask.EmojiMask, emoji: string)
    ensures "// Mask for " + emoji + "\n" <= GenerateMaskCode(mask, emoji)
    ensures var r := GenerateMaskCode(mask, emoji); |r| >= 3 && r[|r| - 3..] == "\n];"
  {
    var h, j := "// Mask for " + emoji + "\n", Join(RowLines(mask), "\n");
    var r := GenerateMaskCode(mask, emoji);
    assert r == h + ("const MASK: EmojiMask = [\n" + j + "\n];");
    assert r == (h + "const MASK: EmojiMask = [\n" + j) + "\n];";
  }

  // Reading the generated text back

  /** The lines of a text, split at every newline. */
  function SplitLines(s: string): (r: seq<string>)
    ensures |r| >= 1
  {
    if s == [] then [""]
    else
      var rest := SplitLines(s[1..]);
      if s[0] == '\n' then [""] + rest else [[s[0]] + rest[0]] + rest[1..]
  }

  function Prepend(cell: bool, cells: Option<seq<bool>>): Option<seq<bool>> {
    match cells
    case None => None
    case Some(r) => Some([cell] + r)
  }

  /** Reads a non-empty list of `true` / `false` separated by ", ". */
  function ParseCells(s: string): Option<seq<bool>>
    decreases |s|
  {
    if s == "true" then Some([true])
    else if s == "false" then Some([false])
    else if |s| > 6 && s[..6] == "true, " then Prepend(true, ParseCells(s[6..]))
    else if |s| > 7 && s[..7] == "false, " then Prepend(false, ParseCells(s[7..]))
    else None
  }

  /** Reads one row line `  [cells],`. */
  function ParseRowLine(line: string): Option<seq<bool>> {
    if |line| >= 5 && line[..3] == "  [" && line[|line| - 2..] == "]," then
      var inner := line[3..|line| - 2];
      if inner == "" then Some([]) else ParseCells(inner)
    else None
  }

  function ParseRowLines(lines: seq<string>): Option<Mask.EmojiMask> {
    if lines == [] then Some([])
    else
      match ParseRowLine(lines[0])
      case None => None
      case Some(row) =>
        match ParseRowLines(lines[1..])
        case None => None
        case Some(rows) => Some([row] + rows)
  }

  /** Reads a generated text back into the emoji and the mask. */
  function DecodeMaskCode(text: string): Option<(string, Mask.EmojiMask)> {
    var lines := SplitLines(text);
    if |lines| < 4 || |lines[0]| < 12 || lines[0][..12] != "// Mask for " then None
    else if lines[1] != "const MASK: EmojiMask = [" || lines[|lines| - 1] != "];" then None
    else
      var emoji := lines[0][12..];
      var body := lines[2..|lines| - 1];
      if body == [""] then Some((emoji, []))
      else
        match ParseRowLines(body)
        case None => None
        case Some(mask) => Some((emoji, mask))
  }

  lemma {:induction false} ParseCellsRoundTrip(row: seq<bool>)
    requires |row| >= 1
    ensures ParseCells(Join(CellTexts(row), ", ")) == Some(row)
  {
    var texts := CellTexts(row);
    if |row| > 1 {
      assert texts[1..] == CellTexts(row[1..]);
      var tail := Join(CellTexts(row[1..]), ", ");
      ParseCellsRoundTrip(row[1..]);
      var s := Join(texts, ", ");
      if row[0] {
        assert s == "true, " + tail;
        assert s[6..] == tail;
      } else {
        assert s == "false, " + tail;
        assert s[..6] != "true, " by { assert s[0] == 'f'; }
        assert s[7..] == tail;
      }
      assert row == [row[0]] + row[1..];
    } else {
      assert Join(texts, ", ") == CellText(row[0]);
      assert row == [row[0]];
    }
  }

  /** A generated row line reads back as its row. */
  lemma RowLineRoundTrip(row: seq<bool>)
    ensures ParseRowLine(RowLine(row)) == Some(row)
  {
    var line := RowLine(row);
    var inner := Join(CellTexts(row), ", ");
    assert line[3..|line| - 2] == inner;
    if row != [] {
      ParseCellsRoundTrip(row);
    }
  }

  lemma {:induction false} RowLinesRoundTrip(mask: Mask.EmojiMask)
    ensures ParseRowLines(RowLines(mask)) == Some(mask)
  {
    if mask != [] {
      assert RowLines(mask)[1..] == RowLines(mask[1..]);
      RowLineRoundTrip(mask[0]);
      RowLinesRoundTrip(mask[1..]);
      assert mask == [mask[0]] + mask[1..];
    }
  }

  lemma RowLineHasNoNewline(row: seq<bool>)
    ensures '\n' !in RowLine(row)
    ensures |RowLine(row)| >= 5
  {
  }

  lemma {:induction false} SplitSingleLine(a: string)
    requires '\n' !in a
    ensures SplitLines(a) == [a]
  {
    if a != [] {
      SplitSingleLine(a[1..]);
      assert a == [a[0]] + a[1..];
    }
  }

  lemma {:induction false} SplitAfterLine(a: string, b: string)
    requires '\n' !in a
    ensures SplitLines(a + "\n" + b) == [a] + SplitLines(b)
  {
    if a == [] {
      assert a + "\n" + b == "\n" + b;
      assert ("\n" + b)[1..] == b;
    } else {
      assert (a + "\n" + b)[1..] == a[1..] + "\n" + b;
      SplitAfterLine(a[1..], b);
      assert a == [a[0]] + a[1..];
    }
  }

  /** Splitting lines joined by newlines, followed by one more line, gives the lines back. */
  lemma {:induction false} SplitJoined(lines: seq<string>, last: string)
    requires |lines| >= 1
    requires forall i :: 0 <= i < |lines| ==> '\n' !in lines[i]
    requires '\n' !in last
    ensures SplitLines(Join(lines, "\n") + "\n" + last) == lines + [last]
  {
    if |lines| == 1 {
      SplitAfterLine(lines[0], last);
      SplitSingleLine(last);
    } else {
      var rest := Join(lines[1..], "\n") + "\n" + last;
      assert Join(lines, "\n") + "\n" + last == lines[0] + "\n" + rest;
      SplitAfterLine(lines[0], rest);
      SplitJoined(lines[1..], last);
      assert lines == [lines[0]] + lines[1..];
    }
  }

  lemma GeneratedTextShape(mask: Mask.EmojiMask, emoji: string)
    ensures GenerateMaskCode(mask, emoji) ==
      ("// Mask for " + emoji) + "\n" + ("const MASK: EmojiMask = [" + "\n" + (Join(RowLines(mask), "\n") + "\n" + "];"))
  {
    var nl, d, c := "\n", "const MASK: EmojiMask = [", "];";
    assert "\nconst MASK: EmojiMask = [\n" == nl + d + nl;
    assert "\n];" == nl + c;
    Regroup("// Mask for " + emoji, nl, d, Join(RowLines(mask), "\n"), c);
  }

  /** Concatenation regrouped from the template's order to one line at a time. */
  lemma Regroup(a: string, nl: string, d: string, j: string, c: string)
    ensures a + (nl + d + nl) + j + (nl + c) == a + nl + (d + nl + (j + nl + c))
  {
  }

  /** The lines of a generated text: header, declaration, the row lines (one empty line for no rows), closing line. */
  lemma GeneratedLines(mask: Mask.EmojiMask, emoji: string)
    requires '\n' !in emoji
    ensures SplitLines(GenerateMaskCode(mask, emoji)) ==
      ["// Mask for " + emoji, "const MASK: EmojiMask = ["] + BodyLines(mask) + ["];"]
  {
    var header := "// Mask for " + emoji;
    var declaration := "const MASK: EmojiMask = [";
    var tail := Join(RowLines(mask), "\n") + "\n" + "];";
    GeneratedTextShape(mask, emoji);
    SplitAfterLine(header, declaration + "\n" + tail);
    SplitAfterLine(declaration, tail);
    TailLines(mask);
  }

  /** The lines between the declaration and the closing line. */
  function BodyLines(mask: Mask.EmojiMask): seq<string> {
    if mask == [] then [""] else RowLines(mask)
  }

  lemma TailLines(mask: Mask.EmojiMask)
    ensures SplitLines(Join(RowLines(mask), "\n") + "\n" + "];") == BodyLines(mask) + ["];"]
  {
    if mask == [] {
      assert Join(RowLines(mask), "\n") + "\n" + "];" == "" + "\n" + "];";
      SplitAfterLine("", "];");
      SplitSingleLine("];");
    } else {
      forall i | 0 <= i < |RowLines(mask)| ensures '\n' !in RowLines(mask)[i] {
        RowLineHasNoNewline(mask[i]);
      }
      SplitJoined(RowLines(mask), "];");
    }
  }

  /**
   * The generated text reads back as the emoji and the mask it was made from,
   * with one line per mask row between the two header lines and the closing line.
   */
  lemma GenerateMaskCodeRoundTrip(mask: Mask.EmojiMask, emoji: string)
    requires '\n' !in emoji
    ensures DecodeMaskCode(GenerateMaskCode(mask, emoji)) == Some((emoji, mask))
    ensures |mask| >= 1 ==> |SplitLines(GenerateMaskCode(mask, emoji))| == |mask| + 3
  {
    GeneratedLines(mask, emoji);
    var lines := SplitLines(GenerateMaskCode(mask, emoji));
    var header := "// Mask for " + emoji;
    assert lines[0] == header && header[..12] == "// Mask for " && header[12..] == emoji;
    if mask != [] {
      assert lines[2..|lines| - 1] == RowLines(mask);
      RowLineHasNoNewline(mask[0]);
      assert RowLines(mask) != [""];
      RowLinesRoundTrip(mask);
    }
  }
}
