/**
 * The `summary` tool: for a Markdown file, its heading lines; for a Python
 * file, its function and class definitions (delegated to Python's `ast`
 * parser, a parameter here); for any other file, a ValueError. The file's
 * content is an input.
 */
module Summary {
  import opened Wrappers
  import opened PyText

  /** The Python exceptions `summary` lets through. */
  datatype PyError = ValueError(message: string) | SyntaxError(message: string)

  // ---------------------------------------------------------------------
  // A list comprehension `[f(x) for x in xs if keep(x)]`
  // ---------------------------------------------------------------------

  function Comprehension<T, U>(xs: seq<T>, f: T -> U, keep: T -> bool): (r: seq<U>)
    ensures |r| <= |xs|
    decreases |xs|
  {
    if |xs| == 0 then []
    else (if keep(xs[0]) then [f(xs[0])] else []) + Comprehension(xs[1..], f, keep)
  }

  /** The comprehension runs through its input in order. */
  lemma {:induction false} ComprehensionAppend<T, U>(xs: seq<T>, ys: seq<T>, f: T -> U, keep: T -> bool)
    ensures Comprehension(xs + ys, f, keep) == Comprehension(xs, f, keep) + Comprehension(ys, f, keep)
    decreases |xs|
  {
    if |xs| == 0 {
      assert xs + ys == ys;
    } else {
      ComprehensionAppend(xs[1..], ys, f, keep);
      var both := xs + ys;
      assert both[0] == xs[0];
      assert both[1..] == xs[1..] + ys;
      var first := if keep(xs[0]) then [f(xs[0])] else [];
      var mid, last := Comprehension(xs[1..], f, keep), Comprehension(ys, f, keep);
      assert first + (mid + last) == (first + mid) + last;
    }
  }

  /** Each element of the result is `f` of an element of the input that `keep` accepts. */
  lemma {:induction false} ComprehensionPicks<T, U>(xs: seq<T>, f: T -> U, keep: T -> bool, k: nat)
    requires k < |Comprehension(xs, f, keep)|
    ensures exists i :: 0 <= i < |xs| && keep(xs[i]) && Comprehension(xs, f, keep)[k] == f(xs[i])
    decreases |xs|
  {
    var first := if keep(xs[0]) then [f(xs[0])] else [];
    var rest := Comprehension(xs[1..], f, keep);
    if k < |first| {
      assert keep(xs[0]) && Comprehension(xs, f, keep)[k] == f(xs[0]);
    } else {
      ComprehensionPicks(xs[1..], f, keep, k - |first|);
      var i :| 0 <= i < |xs[1..]| && keep(xs[1..][i]) && rest[k - |first|] == f(xs[1..][i]);
      assert (first + rest)[k] == rest[k - |first|];
      assert keep(xs[i + 1]) && Comprehension(xs, f, keep)[k] == f(xs[i + 1]);
    }
  }

  /** The one-element case. */
  lemma ComprehensionSingle<T, U>(x: T, f: T -> U, keep: T -> bool)
    ensures Comprehension([x], f, keep) == if keep(x) then [f(x)] else []
  {
    assert [x][1..] == [];
  }

  /** Splitting the input around position `i`. */
  lemma ComprehensionAround<T, U>(xs: seq<T>, f: T -> U, keep: T -> bool, i: nat)
    requires i < |xs|
    ensures Comprehension(xs, f, keep)
         == Comprehension(xs[..i], f, keep) + Comprehension([xs[i]], f, keep) + Comprehension(xs[i + 1..], f, keep)
  {
    var before, at, after := xs[..i], [xs[i]], xs[i + 1..];
    assert xs == (before + at) + after;
    ComprehensionAppend(before + at, after, f, keep);
    ComprehensionAppend(before, at, f, keep);
  }

  // ---------------------------------------------------------------------
  // The Markdown branch
  // ---------------------------------------------------------------------

  /** `line.startswith("#")`. */
  predicate IsHeading(line: string) {
    |line| > 0 && line[0] == '#'
  }

  /** `line.strip().startswith("#")`, the comprehension's condition. */
  predicate IsHeadingLine(line: string) {
    IsHeading(Strip(line))
  }

  /** `[line.strip() for line in lines if line.strip().startswith("#")]`. */
  function Headings(lines: seq<string>): seq<string> {
    Comprehension(lines, Strip, IsHeadingLine)
  }


  /** Every summary line starts with `#` and carries no surrounding whitespace. */
  lemma HeadingsWellFormed(lines: seq<string>)
    ensures forall k :: 0 <= k < |Headings(lines)| ==> IsHeading(Headings(lines)[k]) && IsStripped(Headings(lines)[k])
  {
    forall k | 0 <= k < |Headings(lines)|
      ensures IsHeading(Headings(lines)[k]) && IsStripped(Headings(lines)[k])
    {
      ComprehensionPicks(lines, Strip, IsHeadingLine, k);
    }
  }

  /**
   * The Markdown branch of `summary`, over `content.split("\n")`: heading
   * lines only, each stripped, at most one per line of the file.
   */
  function MarkdownSummary(content: string): (r: seq<string>)
    ensures |r| <= |Split(content, "\n")|
    ensures forall k :: 0 <= k < |r| ==> IsHeading(r[k]) && IsStripped(r[k])
  {
    HeadingsWellFormed(Split(content, "\n"));
    Headings(Split(content, "\n"))
  }

  /** Headings distribute over concatenation: the file order is kept. */
  lemma HeadingsAppend(a: seq<string>, b: seq<string>)
    ensures Headings(a + b) == Headings(a) + Headings(b)
  {
    ComprehensionAppend(a, b, Strip, IsHeadingLine);
  }

  /** A heading line is kept, stripped, at its place among the others. */
  lemma HeadingLineKept(lines: seq<string>, i: nat)
    requires i < |lines| && IsHeading(Strip(lines[i]))
    ensures Headings(lines) == Headings(lines[..i]) + [Strip(lines[i])] + Headings(lines[i + 1..])
  {
    ComprehensionAround(lines, Strip, IsHeadingLine, i);
    ComprehensionSingle(lines[i], Strip, IsHeadingLine);
  }

  /** Any other line is dropped. */
  lemma OtherLineDropped(lines: seq<string>, i: nat)
    requires i < |lines| && !IsHeading(Strip(lines[i]))
    ensures Headings(lines) == Headings(lines[..i]) + Headings(lines[i + 1..])
  {
    ComprehensionAround(lines, Strip, IsHeadingLine, i);
    ComprehensionSingle(lines[i], Strip, IsHeadingLine);
    assert Headings(lines[..i]) + [] == Headings(lines[..i]);
  }

  /** Stripping a summary line again leaves it unchanged. */
  lemma SummaryLinesStripped(content: string, k: nat)
    requires k < |MarkdownSummary(content)|
    ensures Strip(MarkdownSummary(content)[k]) == MarkdownSummary(content)[k]
  {
    var h := MarkdownSummary(content)[k];
    HeadingsWellFormed(Split(content, "\n"));
    StripUnique([], h, []);
    assert [] + h + [] == h;
  }

  /** The lines `summary` scans join back into the file's content. */
  lemma {:induction false} LinesRejoin(content: string)
    ensures Join(Split(content, "\n"), "\n") == content
  {
    SplitIsGreedy(content, "\n");
  }

  // ---------------------------------------------------------------------
  // Dispatch on the file extension
  // ---------------------------------------------------------------------

  /** The message of the ValueError raised for an unsupported extension. */
  function UnsupportedMessage(path: string): string {
    "Unsupported file type: " + path
  }

  /**
   * `summary(path)` on a file with the given content: `.md` is checked
   * first, then `.py`; anything else is a ValueError naming the path.
   */
  function Summarize(path: string, content: string,
                     pyOutline: string -> Result<seq<string>, PyError>): (r: Result<seq<string>, PyError>)
    ensures EndsWith(path, ".md") ==> r == Ok(MarkdownSummary(content))
    ensures EndsWith(path, ".md") ==> r.Ok? && forall k :: 0 <= k < |r.value| ==> IsHeading(r.value[k]) && IsStripped(r.value[k])
    ensures EndsWith(path, ".md") ==> |r.value| <= |Split(content, "\n")|
    ensures !EndsWith(path, ".md") && EndsWith(path, ".py") ==> r == pyOutline(content)
    ensures !EndsWith(path, ".md") && !EndsWith(path, ".py") ==> r == Err(ValueError(UnsupportedMessage(path)))
  {
    if EndsWith(path, ".md") then Ok(MarkdownSummary(content))
    else if EndsWith(path, ".py") then pyOutline(content)
    else Err(ValueError(UnsupportedMessage(path)))
  }
}
