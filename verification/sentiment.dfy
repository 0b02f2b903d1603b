/** The string logic of the employee sentiment tool: turning the generator's
    reply into (Type, Content) records, assembling the analysis prompt from
    an instruction and the uploaded reviews, and choosing that instruction. */
module Sentiment {
  import opened PyStr

  /** One feedback entry: its category label (the "Type" column) and body. */
  datatype Record = Record(kind: string, content: string)

  const TypeMarker: string := "Type:"
  const ContentMarker: string := "Content:"
  const LineBreak: string := "\n"
  const BlankLine: string := "\n\n"

  /** The first entry of the prompt menu, which stands for "no prompt chosen". */
  const Placeholder: string := "<Choose a prompt>"

  const PredefinedPrompts: seq<string> := [
    Placeholder,
    "Summarize employee morale trends.",
    "Identify signs of burnout and stress.",
    "Detect positive feedback and motivational themes.",
    "Analyze changes in tone over time.",
    "Highlight common complaints and areas for improvement.",
    "Detect any changes in satisfaction over time.",
    "Detect any issues on workplace fairness.",
    "Analyze patterns in employee data.",
    "Assess employee thoughts on company values.",
    "Analyze feedback on leadership and trust.",
    "Analyze employee motivation over time.",
    "Give advice on how to boost company morale.",
    "Provide a general analysis on the employee data.",
    "Display only the percentage of employee data was positive, neutral, and negative.",
    "Conduct a statistical analysis on employee data."
  ]

  // ---------------------------------------------------------------------
  // Parsing the generator's reply
  // ---------------------------------------------------------------------

  /** A reply line yields a record exactly when it holds both markers. */
  predicate Qualifies(line: string)
    ensures Qualifies(line) <==> |Split(line, TypeMarker)| >= 2 && |Split(line, ContentMarker)| >= 2
  {
    Contains(line, TypeMarker) && Contains(line, ContentMarker)
  }

  /** The record of one qualifying line: the type is the text after the first
      "Type:" (up to a second one), cut at its first comma and stripped; the
      content is the text after the first "Content:" (up to a second one),
      stripped. */
  function ParseLine(line: string): (r: Record)
    requires Qualifies(line)
    ensures IsStripped(r.kind) && IsStripped(r.content)
  {
    Record(TypeField(line), ContentField(line))
  }

  /** `line.split("Type:")[1].split(",")[0].strip()` */
  function TypeField(line: string): (kind: string)
    requires Contains(line, TypeMarker)
    ensures IsStripped(kind) && |kind| < |line|
  {
    Strip(Split(Split(line, TypeMarker)[1], ",")[0])
  }

  /** `line.split("Content:")[1].strip()` */
  function ContentField(line: string): (content: string)
    requires Contains(line, ContentMarker)
    ensures IsStripped(content) && |content| < |line|
  {
    Strip(Split(line, ContentMarker)[1])
  }

  /** What one line contributes: its record if it qualifies, else nothing. */
  function LineRecords(line: string): (records: seq<Record>)
    ensures |records| <= 1
    ensures records != [] <==> Qualifies(line)
  {
    if Qualifies(line) then [ParseLine(line)] else []
  }

  /** The records of a sequence of reply lines, in line order. */
  function ParseLines(lines: seq<string>): (records: seq<Record>)
    ensures |records| <= |lines|
  {
    if lines == [] then []
    else LineRecords(lines[0]) + ParseLines(lines[1..])
  }

  /** The records of a whole reply text. */
  function ParseResponse(responseText: string): (records: seq<Record>)
    ensures |records| <= |Split(responseText, LineBreak)|
  {
    ParseLines(Split(responseText, LineBreak))
  }

  /** The loop of the generator: walks the reply's lines and appends one
      record for every line holding both markers. */
  method GenerateDataset(responseText: string) returns (dataset: seq<Record>)
    ensures dataset == ParseResponse(responseText)
  {
    var dataLines := Split(responseText, LineBreak);
    dataset := [];
    for i := 0 to |dataLines|
      invariant dataset == ParseLines(dataLines[..i])
    {
      var line := dataLines[i];
      ParseLinesSnoc(dataLines[..i], line);
      assert dataLines[..i + 1] == dataLines[..i] + [line];
      if Qualifies(line) {
        dataset := dataset + [ParseLine(line)];
      }
    }
    assert dataLines[..|dataLines|] == dataLines;
  }

  // ---------------------------------------------------------------------
  // Properties of the parser
  // ---------------------------------------------------------------------

  /** Parsing distributes over concatenation of line sequences. */
  lemma {:induction false} ParseLinesConcat(a: seq<string>, b: seq<string>)
    ensures ParseLines(a + b) == ParseLines(a) + ParseLines(b)
  {
    if a != [] {
      assert (a + b)[1..] == a[1..] + b;
      assert (a + b)[0] == a[0];
      ParseLinesConcat(a[1..], b);
      var head := LineRecords(a[0]);
      assert ParseLines(a + b) == head + ParseLines(a[1..] + b);
      assert ParseLines(a) == head + ParseLines(a[1..]);
    } else {
      assert a + b == b;
    }
  }

  /** At most one record per line, and no record at all exactly when no line
      holds both markers. */
  lemma {:induction false} ParseLinesBound(lines: seq<string>)
    ensures |ParseLines(lines)| <= |lines|
    ensures ParseLines(lines) == [] <==> forall k | 0 <= k < |lines| :: !Qualifies(lines[k])
  {
    if lines != [] {
      ParseLinesBound(lines[1..]);
      assert forall k | 1 <= k < |lines| :: lines[1..][k - 1] == lines[k];
    }
  }

  lemma ParseLinesSnoc(a: seq<string>, line: string)
    ensures ParseLines(a + [line]) == ParseLines(a) + LineRecords(line)
  {
    ParseLinesConcat(a, [line]);
    assert [line][1..] == [];
  }

  /** A line contributes exactly one record, in its own place, when it holds
      both markers, and nothing otherwise. */
  lemma RecordInPlace(before: seq<string>, line: string, after: seq<string>)
    ensures ParseLines(before + [line] + after)
         == ParseLines(before) + (if Qualifies(line) then [ParseLine(line)] else []) + ParseLines(after)
  {
    ParseLinesConcat(before + [line], after);
    ParseLinesSnoc(before, line);
  }

  /** Every record comes from a qualifying line of the input: the `i`-th
      record is that of line `k`, and `k >= i` since earlier lines give at
      most one record each. */
  lemma {:induction false} RecordFromLine(lines: seq<string>, i: nat) returns (k: nat)
    requires i < |ParseLines(lines)|
    ensures i <= k < |lines| && Qualifies(lines[k])
    ensures ParseLines(lines)[i] == ParseLine(lines[k])
  {
    var head := LineRecords(lines[0]);
    var tail := ParseLines(lines[1..]);
    assert ParseLines(lines) == head + tail;
    if i < |head| {
      assert head == [ParseLine(lines[0])];
      assert (head + tail)[i] == head[0];
      k := 0;
    } else {
      var k' := RecordFromLine(lines[1..], i - |head|);
      assert (head + tail)[i] == tail[i - |head|];
      assert lines[1..][k'] == lines[k' + 1];
      k := k' + 1;
    }
  }

  /** The shape of each parsed field: the type holds no comma and no "Type:",
      the content holds no "Content:", both are stripped, and both are
      substrings of their line. */
  lemma FieldShapes(line: string)
    requires Qualifies(line)
    ensures var r := ParseLine(line);
      IsStripped(r.kind) && !Contains(r.kind, ",") && !Contains(r.kind, TypeMarker)
      && IsStripped(r.content) && !Contains(r.content, ContentMarker)
      && Contains(line, r.kind) && Contains(line, r.content)
  {
    var afterType := Split(line, TypeMarker)[1];
    var beforeComma := Split(afterType, ",")[0];
    var kind := Strip(beforeComma);
    var afterContent := Split(line, ContentMarker)[1];
    StripSpec(beforeComma);
    StripSpec(afterContent);
    SplitInverse(line, TypeMarker);
    SplitInverse(afterType, ",");
    SplitInverse(line, ContentMarker);
    StripInfix(beforeComma);
    SplitPieceInfix(afterType, ",", 0);
    SplitPieceInfix(line, TypeMarker, 1);
    ContainsTrans(afterType, beforeComma, kind);
    ContainsTrans(line, afterType, kind);
    if Contains(kind, ",") {
      ContainsTrans(beforeComma, kind, ",");
    }
    if Contains(kind, TypeMarker) {
      ContainsTrans(afterType, kind, TypeMarker);
    }
    StripInfix(afterContent);
    SplitPieceInfix(line, ContentMarker, 1);
    ContainsTrans(line, afterContent, Strip(afterContent));
    if Contains(Strip(afterContent), ContentMarker) {
      ContainsTrans(afterContent, Strip(afterContent), ContentMarker);
    }
  }

  /** The piece of `a + "," + b` before any "Type:", cut at its first comma,
      is `a`, when `a` holds neither. */
  lemma CommaCut(a: string, b: string)
    requires !Contains(a, TypeMarker) && !Contains(a, ",")
    ensures Split(Split(a + "," + b, TypeMarker)[0], ",")[0] == a
  {
    assert a + "," + b == a + [','] + b;
    FirstPieceCovers(a, ',', b, TypeMarker);
    var piece := Split(a + "," + b, TypeMarker)[0];
    assert piece == a + "," + piece[|a| + 1..];
    SplitAtFirst(a, ",", piece[|a| + 1..]);
  }

  /** The type is the stripped text between the first "Type:" and the first
      comma after it, whatever follows that comma. */
  lemma KindBeforeComma(pre: string, a: string, b: string)
    requires !Contains(pre, TypeMarker) && !Contains(a, TypeMarker) && !Contains(a, ",")
    requires Contains(pre + TypeMarker + a + "," + b, ContentMarker)
    ensures var line := pre + TypeMarker + a + "," + b;
      Qualifies(line) && ParseLine(line).kind == Strip(a)
  {
    var line := pre + TypeMarker + a + "," + b;
    assert line == pre + TypeMarker + (a + "," + b);
    assert IsAt(line, TypeMarker, |pre|);
    assert LastCharUnique(TypeMarker);
    SplitAtFirst(pre, TypeMarker, a + "," + b);
    CommaCut(a, b);
  }

  /** When a second "Type:" comes before any comma, the type is the stripped
      text between the first and the second "Type:". */
  lemma KindBeforeSecondMarker(pre: string, a: string, b: string)
    requires !Contains(pre, TypeMarker) && !Contains(a, TypeMarker) && !Contains(a, ",")
    requires Contains(pre + TypeMarker + a + TypeMarker + b, ContentMarker)
    ensures var line := pre + TypeMarker + a + TypeMarker + b;
      Qualifies(line) && ParseLine(line).kind == Strip(a)
  {
    var line := pre + TypeMarker + a + TypeMarker + b;
    assert line == pre + TypeMarker + (a + TypeMarker + b);
    assert IsAt(line, TypeMarker, |pre|);
    assert LastCharUnique(TypeMarker);
    SplitAtFirst(pre, TypeMarker, a + TypeMarker + b);
    SplitAtFirst(a, TypeMarker, b);
  }

  /** With a single "Type:" and no comma after it, the type is the stripped
      rest of the line. */
  lemma KindWithoutComma(pre: string, a: string)
    requires !Contains(pre, TypeMarker) && !Contains(a, TypeMarker) && !Contains(a, ",")
    requires Contains(pre + TypeMarker + a, ContentMarker)
    ensures var line := pre + TypeMarker + a;
      Qualifies(line) && ParseLine(line).kind == Strip(a)
  {
    var line := pre + TypeMarker + a;
    assert IsAt(line, TypeMarker, |pre|);
    assert LastCharUnique(TypeMarker);
    SplitAtFirst(pre, TypeMarker, a);
  }

  /** The piece after the first "Content:" ends at a second "Content:" if
      there is one. */
  lemma ContentPiece(pre: string, mid: string, tail: string)
    requires !Contains(pre, ContentMarker) && !Contains(mid, ContentMarker)
    requires tail == "" || (|tail| >= |ContentMarker| && tail[..|ContentMarker|] == ContentMarker)
    ensures var line := pre + ContentMarker + mid + tail;
      |Split(line, ContentMarker)| >= 2 && Split(line, ContentMarker)[1] == mid
  {
    var line := pre + ContentMarker + mid + tail;
    assert line == pre + ContentMarker + (mid + tail);
    assert LastCharUnique(ContentMarker);
    SplitAtFirst(pre, ContentMarker, mid + tail);
    if tail != "" {
      assert tail == ContentMarker + tail[|ContentMarker|..];
      assert mid + tail == mid + ContentMarker + tail[|ContentMarker|..];
      SplitAtFirst(mid, ContentMarker, tail[|ContentMarker|..]);
    } else {
      assert mid + tail == mid;
    }
  }

  /** The content is the stripped text after the first "Content:", up to a
      second "Content:" if there is one. */
  lemma ContentAfterMarker(pre: string, mid: string, tail: string)
    requires !Contains(pre, ContentMarker) && !Contains(mid, ContentMarker)
    requires tail == "" || (|tail| >= |ContentMarker| && tail[..|ContentMarker|] == ContentMarker)
    requires Contains(pre + ContentMarker + mid + tail, TypeMarker)
    ensures var line := pre + ContentMarker + mid + tail;
      Qualifies(line) && ParseLine(line).content == Strip(mid)
  {
    var line := pre + ContentMarker + mid + tail;
    ContentPiece(pre, mid, tail);
    assert ContentField(line) == Strip(mid);
  }

  // ---------------------------------------------------------------------
  // Properties of whole replies
  // ---------------------------------------------------------------------

  /** A reply made of lines without line breaks is parsed line by line. */
  lemma ResponseOfLines(lines: seq<string>)
    requires |lines| >= 1
    requires forall k | 0 <= k < |lines| :: !Contains(lines[k], LineBreak)
    ensures ParseResponse(Join(LineBreak, lines)) == ParseLines(lines)
  {
    SplitJoinChar(LineBreak, lines);
  }

  /** At most one record per line of the reply; none when no line holds both
      markers, and in particular none when the reply lacks either marker. */
  lemma ResponseBound(responseText: string)
    ensures var lines := Split(responseText, LineBreak);
      |ParseResponse(responseText)| <= |lines|
      && (ParseResponse(responseText) == [] <==> forall k | 0 <= k < |lines| :: !Qualifies(lines[k]))
    ensures !Contains(responseText, TypeMarker) || !Contains(responseText, ContentMarker)
      ==> ParseResponse(responseText) == []
  {
    var lines := Split(responseText, LineBreak);
    ParseLinesBound(lines);
    forall k | 0 <= k < |lines| && Qualifies(lines[k])
      ensures Contains(responseText, TypeMarker) && Contains(responseText, ContentMarker)
    {
      SplitPieceInfix(responseText, LineBreak, k);
      ContainsTrans(responseText, lines[k], TypeMarker);
      ContainsTrans(responseText, lines[k], ContentMarker);
    }
  }

  /** Every record of a reply has the field shapes of its line, and neither
      field spans a line break. */
  lemma ResponseRecordShapes(responseText: string, i: nat)
    requires i < |ParseResponse(responseText)|
    ensures var r := ParseResponse(responseText)[i];
      IsStripped(r.kind) && !Contains(r.kind, ",") && !Contains(r.kind, TypeMarker)
      && IsStripped(r.content) && !Contains(r.content, ContentMarker)
      && !Contains(r.kind, LineBreak) && !Contains(r.content, LineBreak)
  {
    var lines := Split(responseText, LineBreak);
    var k := RecordFromLine(lines, i);
    var r := ParseLine(lines[k]);
    FieldShapes(lines[k]);
    SplitInverse(responseText, LineBreak);
    if Contains(r.kind, LineBreak) {
      ContainsTrans(lines[k], r.kind, LineBreak);
    }
    if Contains(r.content, LineBreak) {
      ContainsTrans(lines[k], r.content, LineBreak);
    }
  }

  /** A record is kept even when its type strips to nothing: a line that
      opens with "Type:," yields an empty type. */
  lemma BlankTypeKept(b: string)
    requires !Contains(b, ContentMarker)
    ensures var line := TypeMarker + "," + ContentMarker + b;
      Qualifies(line) && ParseLine(line) == Record("", Strip(b))
  {
    var line := TypeMarker + "," + ContentMarker + b;
    assert line == "" + TypeMarker + "" + "," + (ContentMarker + b);
    assert line == (TypeMarker + ",") + ContentMarker + b + "";
    assert IsAt(line, ContentMarker, 6);
    KindBeforeComma("", "", ContentMarker + b);
    ContentAfterMarker(TypeMarker + ",", b, "");
    assert Strip("") == "";
  }

  // ---------------------------------------------------------------------
  // The analysis prompt
  // ---------------------------------------------------------------------

  /** The text sent for analysis: the instruction, a blank line, then the
      reviews separated by blank lines. The instruction and a blank line open
      every prompt; with no reviews that is all of it, and the first review
      follows them directly. */
  function FullPrompt(prompt: string, reviews: seq<string>): (text: string)
    ensures |text| >= |prompt| + |BlankLine| && text[..|prompt| + |BlankLine|] == prompt + BlankLine
    ensures reviews == [] ==> text == prompt + BlankLine
    ensures reviews != [] ==> IsAt(text, reviews[0], |prompt| + |BlankLine|)
  {
    prompt + BlankLine + Join(BlankLine, reviews)
  }

  /** One more review extends the prompt by a blank line and that review
      (just the review, after the opening blank line, for the first one). */
  lemma FullPromptAppend(prompt: string, reviews: seq<string>, review: string)
    ensures FullPrompt(prompt, reviews + [review])
         == FullPrompt(prompt, reviews) + (if reviews == [] then "" else BlankLine) + review
  {
    JoinSnoc(BlankLine, reviews, review);
  }

  /** Splitting the prompt at blank lines gives back the instruction and the
      reviews in input order (an empty last piece when there are no reviews),
      as long as none of them holds a blank line or ends in a line break. */
  lemma FullPromptPieces(prompt: string, reviews: seq<string>)
    requires !Contains(prompt + LineBreak, BlankLine)
    requires forall k | 0 <= k < |reviews| :: !Contains(reviews[k] + LineBreak, BlankLine)
    ensures Split(FullPrompt(prompt, reviews), BlankLine) == [prompt] + (if reviews == [] then [""] else reviews)
  {
    var parts := [prompt] + (if reviews == [] then [""] else reviews);
    assert BlankLine[..|BlankLine| - 1] == LineBreak;
    if reviews == [] {
      assert Join(BlankLine, parts) == prompt + BlankLine + "";
      assert "" + LineBreak == LineBreak;
    } else {
      assert parts[1..] == reviews;
    }
    forall k | 0 <= k < |parts| ensures !Contains(parts[k] + BlankLine[..|BlankLine| - 1], BlankLine) {
      if k > 0 && reviews != [] {
        assert parts[k] == reviews[k - 1];
      }
    }
    SplitJoin(BlankLine, parts);
  }

  /** The worked example of the analysis prompt. */
  lemma FullPromptExample()
    ensures FullPrompt("Summarize employee morale trends.", ["good job", "feeling stressed"])
         == "Summarize employee morale trends.\n\ngood job\n\nfeeling stressed"
  {
    var reviews := ["good job", "feeling stressed"];
    assert reviews[1..] == ["feeling stressed"];
    assert Join(BlankLine, reviews) == "good job" + BlankLine + "feeling stressed";
  }

  // ---------------------------------------------------------------------
  // Choosing the instruction
  // ---------------------------------------------------------------------

  /** A custom prompt with any non-whitespace character wins; otherwise the
      menu selection is used as it is. */
  function FinalPrompt(customPrompt: string, selectedPrompt: string): (r: string)
    ensures !AllSpace(customPrompt) ==> r == customPrompt
    ensures AllSpace(customPrompt) ==> r == selectedPrompt
  {
    StripSpec(customPrompt);
    if Strip(customPrompt) != "" then customPrompt else selectedPrompt
  }

  /** With a blank custom prompt and the menu left on its first entry, the
      placeholder itself is sent as the instruction. */
  lemma PlaceholderSent(customPrompt: string, reviews: seq<string>)
    requires AllSpace(customPrompt)
    ensures FinalPrompt(customPrompt, PredefinedPrompts[0]) == Placeholder
    ensures FullPrompt(FinalPrompt(customPrompt, PredefinedPrompts[0]), reviews)[..|Placeholder| + |BlankLine|]
         == Placeholder + BlankLine
  {
  }
}
