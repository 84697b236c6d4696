/**
 * The line arithmetic of src/fuzzy.rs: the recipe range shown in the
 * picker's preview, the numbered and marked preview rows, the context
 * window of `get_target_snippet`, and how a picked line is turned back into
 * a target. The skim UI, syntax highlighting and ANSI colouring are not
 * part of this model.
 */
module Fuzzy {
  import opened Wrappers
  import opened Text
  import opened Files
  import opened Targets
  import opened TargetList

  /** `n.saturating_sub(m)` on `usize`. */
  function SaturatingSub(n: nat, m: nat): (r: nat)
    ensures r == if n >= m then n - m else 0
  {
    if n >= m then n - m else 0
  }

  // ---------------------------------------------------------------------
  // The recipe range of `get_highlighted_preview`
  // ---------------------------------------------------------------------

  /** Starts with a tab or a space: a recipe line. */
  predicate Indented(line: string) {
    line != [] && (line[0] == '\t' || line[0] == ' ')
  }

  /** A non-empty, non-indented comment line or line holding ':': the next target or its description. */
  predicate StopsRecipe(line: string) {
    line != [] && !Indented(line) && (StartsWith(Trim(line), "#") || ':' in line)
  }

  /** The first line at or after `i` that stops the recipe, or the number of lines. */
  function ScanEnd(lines: seq<string>, i: nat): (e: nat)
    requires i <= |lines|
    ensures i <= e <= |lines|
    ensures forall k :: i <= k < e ==> !StopsRecipe(lines[k])
    ensures e < |lines| ==> StopsRecipe(lines[e])
    decreases |lines| - i
  {
    if i < |lines| && !StopsRecipe(lines[i]) then ScanEnd(lines, i + 1) else i
  }

  /** `e` moved back over whitespace-only lines, but never below `lo`. */
  function DropBlankTail(lines: seq<string>, lo: nat, e: nat): (r: nat)
    requires lo <= e <= |lines|
    ensures lo <= r <= e
    ensures forall k :: r <= k < e ==> AllSpace(lines[k])
    ensures r == lo || !AllSpace(lines[r - 1])
    decreases e
  {
    if e > lo && Trim(lines[e - 1]) == [] then DropBlankTail(lines, lo, e - 1) else e
  }

  /** The end of the recipe that starts at line index `start`. */
  function RecipeEnd(lines: seq<string>, start: nat): (e: nat)
    requires start < |lines|
    ensures start < e <= |lines|
  {
    DropBlankTail(lines, start + 1, ScanEnd(lines, start + 1))
  }

  /**
   * The recipe shown for a target on line index `start`: the lines up to
   * the next target or comment, less trailing blank lines, and always the
   * target's own line.
   */
  lemma {:induction false} RecipeEndSpec(lines: seq<string>, start: nat)
    requires start < |lines|
    ensures var e := RecipeEnd(lines, start);
            && start + 1 <= e <= |lines|
            && (forall k :: start < k < e ==> !StopsRecipe(lines[k]))
            && (e == start + 1 || !AllSpace(lines[e - 1]))
            && forall k :: e <= k < ScanEnd(lines, start + 1) ==> AllSpace(lines[k]) && !StopsRecipe(lines[k])
  {
  }

  /** The first loop of `get_highlighted_preview`: walk forward to the next target or comment. */
  method ScanRecipe(lines: seq<string>, from: nat) returns (end: nat)
    requires from <= |lines|
    ensures end == ScanEnd(lines, from)
  {
    end := from;
    while end < |lines|
      invariant from <= end <= |lines|
      invariant ScanEnd(lines, from) == ScanEnd(lines, end)
      decreases |lines| - end
    {
      var l := lines[end];
      if l != [] && l[0] != '\t' && l[0] != ' ' {
        if StartsWith(Trim(l), "#") {
          assert StopsRecipe(l);
          break;
        }
        if ':' in l {
          assert StopsRecipe(l);
          break;
        }
      }
      assert !StopsRecipe(l);
      end := end + 1;
    }
  }

  /** The second loop: step back over trailing blank lines, but not onto the target line. */
  method TrimBlankTail(lines: seq<string>, lo: nat, e: nat) returns (end: nat)
    requires lo <= e <= |lines|
    ensures end == DropBlankTail(lines, lo, e)
  {
    end := e;
    while end > lo && Trim(lines[end - 1]) == []
      invariant lo <= end <= e
      invariant DropBlankTail(lines, lo, e) == DropBlankTail(lines, lo, end)
      decreases end
    {
      end := end - 1;
    }
  }

  /** The two loops of `get_highlighted_preview` that find the lines to show. */
  method PreviewRange(lines: seq<string>, line: nat) returns (start: nat, end: nat)
    requires SaturatingSub(line, 1) < |lines|
    ensures start == SaturatingSub(line, 1)
    ensures end == RecipeEnd(lines, start)
  {
    start := SaturatingSub(line, 1);
    var scanned := ScanRecipe(lines, start + 1);
    end := TrimBlankTail(lines, start + 1, scanned);
  }

  // ---------------------------------------------------------------------
  // Numbered rows
  // ---------------------------------------------------------------------

  /** One shown line: its marker, its 1-based number and its text. */
  datatype Row = Row(marker: char, number: nat, text: string)

  /** `>` on the target's own line, a space elsewhere. */
  function Marker(number: nat, targetLine: nat): (c: char)
    ensures c == '>' <==> number == targetLine
    ensures c == ' ' <==> number != targetLine
  {
    if number == targetLine then '>' else ' '
  }

  /** The lines `lines[start..start + |shown|]` numbered from `start + 1`, the target's line marked. */
  function NumberRows(shown: seq<string>, start: nat, targetLine: nat): (rows: seq<Row>)
    ensures |rows| == |shown|
    ensures forall i :: 0 <= i < |rows| ==> rows[i].number == start + i + 1 && rows[i].text == shown[i]
    ensures forall i :: 0 <= i < |rows| ==> rows[i].marker == Marker(start + i + 1, targetLine)
    ensures forall i :: 0 <= i < |rows| ==> (rows[i].marker == '>' <==> start + i + 1 == targetLine)
  {
    var rows := seq(|shown|, i requires 0 <= i < |shown| => Row(Marker(start + i + 1, targetLine), start + i + 1, shown[i]));
    assert forall i :: 0 <= i < |rows| ==> rows[i] == Row(Marker(start + i + 1, targetLine), start + i + 1, shown[i]);
    rows
  }

  /** A target line inside the numbered range is the one and only marked row. */
  lemma {:induction false} NumberRowsMarksTarget(shown: seq<string>, start: nat, targetLine: nat)
    requires start < targetLine <= start + |shown|
    ensures var rows := NumberRows(shown, start, targetLine);
            && rows[targetLine - start - 1].marker == '>'
            && rows[targetLine - start - 1].number == targetLine
            && forall i :: 0 <= i < |rows| && i != targetLine - start - 1 ==> rows[i].marker == ' '
  {
    var rows := NumberRows(shown, start, targetLine);
    forall i | 0 <= i < |rows| && i != targetLine - start - 1 ensures rows[i].marker == ' ' {
      assert rows[i].marker == Marker(start + i + 1, targetLine);
    }
  }

  /** A target line outside the numbered range marks nothing. */
  lemma {:induction false} NumberRowsNoMark(shown: seq<string>, start: nat, targetLine: nat)
    requires targetLine <= start || start + |shown| < targetLine
    ensures forall r :: r in NumberRows(shown, start, targetLine) ==> r.marker == ' '
  {
    var rows := NumberRows(shown, start, targetLine);
    forall r | r in rows ensures r.marker == ' ' {
      var i :| 0 <= i < |rows| && rows[i] == r;
      assert r.marker == Marker(start + i + 1, targetLine);
    }
  }

  // ---------------------------------------------------------------------
  // `get_highlighted_preview`
  // ---------------------------------------------------------------------

  /**
   * The lines `LinesWithEndings` finds in `join("\n")` of `snippet`: all of
   * them, except that a final empty line leaves no trace in the joined text.
   */
  function ShownLines(snippet: seq<string>): (r: seq<string>)
    ensures r == snippet || (snippet != [] && snippet[|snippet| - 1] == [] && r == snippet[..|snippet| - 1])
    ensures |r| >= |snippet| - 1
  {
    if snippet != [] && snippet[|snippet| - 1] == [] then snippet[..|snippet| - 1] else snippet
  }

  /** What the preview pane shows. */
  datatype Preview =
    | ReadError                                          // "Error reading file"
    | Shown(description: Option<string>, rows: seq<Row>)

  /**
   * `get_highlighted_preview`: the target's description, then its recipe's
   * lines numbered and marked. The file must still be long enough to hold
   * the target's line, or the source's slice would panic.
   */
  method HighlightedPreview(fs: FileSystem, t: Target) returns (p: Preview)
    requires t.file in fs.contents ==> SaturatingSub(t.line, 1) < |fs.contents[t.file]|
    ensures t.file !in fs.contents ==> p == ReadError
    ensures t.file in fs.contents ==>
              var lines := fs.contents[t.file];
              var start := SaturatingSub(t.line, 1);
              p == Shown(t.description, NumberRows(ShownLines(lines[start..RecipeEnd(lines, start)]), start, t.line))
  {
    var content := Read(fs, t.file);
    if content.Err? {
      return ReadError;
    }
    var lines := content.value;
    var start, end := PreviewRange(lines, t.line);
    var shown := ShownLines(lines[start..end]);
    return Shown(t.description, NumberRows(shown, start, t.line));
  }

  /**
   * When the target's line is non-empty (as a rule head always is), the
   * preview's first row is that line, numbered with the target's line and
   * the only one marked.
   */
  lemma {:induction false} PreviewMarksTargetLine(lines: seq<string>, line: nat)
    requires 1 <= line <= |lines| && lines[line - 1] != []
    ensures var start := line - 1;
            var rows := NumberRows(ShownLines(lines[start..RecipeEnd(lines, start)]), start, line);
            && rows != [] && rows[0] == Row('>', line, lines[line - 1])
            && forall i :: 1 <= i < |rows| ==> rows[i].marker == ' '
  {
    var start := line - 1;
    var e := RecipeEnd(lines, start);
    var shown := ShownLines(lines[start..e]);
    assert lines[start..e][0] == lines[start];
    assert shown != [] && shown[0] == lines[start] by {
      if e == start + 1 {
        assert lines[start..e] == [lines[start]];
      }
    }
    NumberRowsMarksTarget(shown, start, line);
  }

  // ---------------------------------------------------------------------
  // `get_target_snippet`
  // ---------------------------------------------------------------------

  /** `format!("{} {:4} | {}", marker, line_num, line)`. */
  function Render(r: Row): string {
    [r.marker] + " " + PadLeft(NatToString(r.number), 4) + " | " + r.text
  }

  /** The rendered row holds no line break of its own. */
  lemma {:induction false} RenderNoNewline(r: Row)
    requires r.marker != '\n' && '\n' !in r.text
    ensures '\n' !in Render(r)
  {
    var digits := NatToString(r.number);
    var padded := PadLeft(digits, 4);
    assert forall k :: 0 <= k < |padded| ==> padded[k] == ' ' || '0' <= padded[k] <= '9';
  }

  /** The context window `[line - ctx - 1, min(line + ctx, len))`, saturating at 0. */
  function SnippetStart(line: nat, ctx: nat): nat {
    SaturatingSub(line, ctx + 1)
  }

  function SnippetEnd(line: nat, ctx: nat, len: nat): nat {
    if line + ctx < len then line + ctx else len
  }

  /** The rendered lines of the snippet around a target's line. */
  function SnippetLines(lines: seq<string>, line: nat, ctx: nat): (out: seq<string>)
    requires SnippetStart(line, ctx) <= |lines|
    ensures |out| == SnippetEnd(line, ctx, |lines|) - SnippetStart(line, ctx)
  {
    var start, end := SnippetStart(line, ctx), SnippetEnd(line, ctx, |lines|);
    var rows := NumberRows(lines[start..end], start, line);
    seq(|rows|, i requires 0 <= i < |rows| => Render(rows[i]))
  }

  /**
   * `get_target_snippet`: the rendered window joined by newlines, or the
   * read error. The file must hold at least `line - ctx - 1` lines, or the
   * source's slice would panic.
   */
  function TargetSnippet(fs: FileSystem, t: Target, ctx: nat): (r: Result<string, IoError>)
    requires t.file in fs.contents ==> SnippetStart(t.line, ctx) <= |fs.contents[t.file]|
    ensures r.Err? <==> t.file !in fs.contents
    ensures r.Ok? ==> r.value == Join(SnippetLines(fs.contents[t.file], t.line, ctx), "\n")
  {
    match Read(fs, t.file)
    case Err(e) => Err(e)
    case Ok(lines) => Ok(Join(SnippetLines(lines, t.line, ctx), "\n"))
  }

  /**
   * The snippet window: at most `2 * ctx + 1` lines, each numbered with its
   * own 1-based line, and exactly one of them marked when the target's line
   * exists in the file.
   */
  lemma {:induction false} SnippetWindow(lines: seq<string>, line: nat, ctx: nat)
    requires SnippetStart(line, ctx) <= |lines|
    ensures var start, end := SnippetStart(line, ctx), SnippetEnd(line, ctx, |lines|);
            var rows := NumberRows(lines[start..end], start, line);
            && end - start <= 2 * ctx + 1
            && (forall i :: 0 <= i < |rows| ==> rows[i].number == start + i + 1 && rows[i].text == lines[start + i])
            && (1 <= line <= |lines| ==>
                  && rows[line - start - 1].marker == '>'
                  && forall i :: 0 <= i < |rows| && i != line - start - 1 ==> rows[i].marker == ' ')
  {
    var start, end := SnippetStart(line, ctx), SnippetEnd(line, ctx, |lines|);
    if 1 <= line <= |lines| {
      NumberRowsMarksTarget(lines[start..end], start, line);
    }
  }

  /** Splitting the snippet at line breaks gives back one rendered row per line of the window. */
  lemma {:induction false} SnippetLineCount(lines: seq<string>, line: nat, ctx: nat)
    requires SnippetStart(line, ctx) < SnippetEnd(line, ctx, |lines|)
    requires forall k :: 0 <= k < |lines| ==> '\n' !in lines[k]
    ensures Split(Join(SnippetLines(lines, line, ctx), "\n"), '\n') == SnippetLines(lines, line, ctx)
    ensures |Split(Join(SnippetLines(lines, line, ctx), "\n"), '\n')| == SnippetEnd(line, ctx, |lines|) - SnippetStart(line, ctx)
  {
    var start, end := SnippetStart(line, ctx), SnippetEnd(line, ctx, |lines|);
    var rows := NumberRows(lines[start..end], start, line);
    var out := SnippetLines(lines, line, ctx);
    forall k | 0 <= k < |out| ensures '\n' !in out[k] {
      assert rows[k].text == lines[start + k];
      RenderNoNewline(rows[k]);
    }
    SplitJoin(out, '\n');
  }

  // ---------------------------------------------------------------------
  // `select_target` and `select_target_with_preview`
  // ---------------------------------------------------------------------

  /** `targets.iter().find(|t| t.name == name)`. */
  function FindByName(targets: seq<Target>, name: string): (r: Option<Target>)
    ensures r.None? <==> name !in Names(targets)
    ensures r.Some? ==> r.value == targets[FirstIndex(targets, name)] && r.value.name == name
  {
    var i := FirstIndex(targets, name);
    if i < |targets| then Some(targets[i]) else None
  }

  /** `split_whitespace().next().unwrap_or(text)`. */
  function SelectionKey(text: string): (key: string)
    ensures AllSpace(text) ==> key == text
    ensures !AllSpace(text) ==> key != [] && NoSpace(key)
  {
    match FirstWord(text)
    case Some(w) => w
    case None => text
  }

  /**
   * `select_target`, given what the picker returned (`None` when it was
   * aborted or nothing was selected).
   */
  function SelectTarget(targets: seq<Target>, picked: Option<string>): (r: Option<Target>)
    ensures targets == [] || picked.None? ==> r == None
    ensures r.Some? ==> picked.Some? && r.value in targets && r.value.name == SelectionKey(picked.value)
    ensures picked.Some? && SelectionKey(picked.value) in Names(targets) ==>
              r == Some(targets[FirstIndex(targets, SelectionKey(picked.value))])
    ensures picked.Some? && SelectionKey(picked.value) !in Names(targets) ==> r == None
  {
    if targets == [] then None
    else
      match picked
      case None => None
      case Some(text) => FindByName(targets, SelectionKey(text))
  }

  /** `targets.iter().map(|t| (t.name.clone(), t)).collect()`: a later target replaces an earlier one. */
  function NameMap(targets: seq<Target>): (m: map<string, Target>)
    ensures m.Keys == Names(targets)
    decreases |targets|
  {
    if targets == [] then map[]
    else
      var front := targets[..|targets| - 1];
      var t := targets[|targets| - 1];
      assert targets == front + [t];
      NamesSnoc(front, t);
      NameMap(front)[t.name := t]
  }

  /** `select_target_with_preview`, given the picked line. */
  function SelectWithPreview(targets: seq<Target>, picked: Option<string>): (r: Option<Target>)
    ensures targets == [] || picked.None? ==> r == None
    ensures r.Some? ==> picked.Some? && r.value.name == picked.value && r.value in targets
    ensures picked.Some? ==> (r.Some? <==> picked.value in Names(targets))
    ensures picked.Some? && picked.value in Names(targets) ==> r == Some(NameMap(targets)[picked.value])
  {
    if targets == [] then None
    else
      match picked
      case None => None
      case Some(text) =>
        if text in NameMap(targets) then
          NameMapHolds(targets, text);
          Some(NameMap(targets)[text])
        else None
  }

  /** A later target replaces an earlier one: a name maps to the last target holding it. */
  lemma {:induction false} NameMapLastWins(targets: seq<Target>, i: nat)
    requires i < |targets|
    requires forall j :: i < j < |targets| ==> targets[j].name != targets[i].name
    ensures targets[i].name in NameMap(targets) && NameMap(targets)[targets[i].name] == targets[i]
    decreases |targets|
  {
    var n := |targets| - 1;
    var front := targets[..n];
    if i < n {
      forall j | i < j < |front| ensures front[j].name != front[i].name {
        assert front[j] == targets[j];
      }
      NameMapLastWins(front, i);
      assert front[i] == targets[i];
    }
  }

  /** The map holds, under each name, a target of that name from the list. */
  lemma {:induction false} NameMapHolds(targets: seq<Target>, name: string)
    requires name in NameMap(targets)
    ensures NameMap(targets)[name] in targets && NameMap(targets)[name].name == name
    decreases |targets|
  {
    var front := targets[..|targets| - 1];
    var t := targets[|targets| - 1];
    if name != t.name {
      NameMapHolds(front, name);
    }
  }

  /** With distinct names the map holds each name's only target. */
  lemma {:induction false} NameMapDistinct(targets: seq<Target>, i: nat)
    requires DistinctNames(targets) && i < |targets|
    ensures targets[i].name in NameMap(targets) && NameMap(targets)[targets[i].name] == targets[i]
    decreases |targets|
  {
    var n := |targets| - 1;
    var front := targets[..n];
    if i < n {
      assert DistinctNames(front) by {
        forall a, b | 0 <= a < b < |front| ensures front[a].name != front[b].name {
          assert front[a] == targets[a] && front[b] == targets[b];
        }
      }
      NameMapDistinct(front, i);
      assert front[i] == targets[i];
      assert targets[i].name != targets[n].name;
    }
  }

  /**
   * On a list with distinct names (as `get_targets` returns), picking a
   * target's name selects that very target through either selector.
   */
  lemma {:induction false} SelectorsAgree(targets: seq<Target>, i: nat)
    requires DistinctNames(targets) && i < |targets|
    requires targets[i].name != [] && NoSpace(targets[i].name)
    ensures SelectTarget(targets, Some(targets[i].name)) == Some(targets[i])
    ensures SelectWithPreview(targets, Some(targets[i].name)) == Some(targets[i])
  {
    var name := targets[i].name;
    FirstWordOfWord(name);
    assert name in Names(targets);
    var j := FirstIndex(targets, name);
    assert targets[j].name == name;
    NameMapDistinct(targets, i);
  }
}
