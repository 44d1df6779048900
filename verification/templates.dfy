/**
 The two text templates of the advisor: the combined query `home` builds
 from the form fields, and the prompt `ask_llm` sends to the completion
 service. Both insert their fields verbatim, with no escaping.
 */
module Templates {
  import opened Text
  import opened Results

  /** The form fields of one request. Optional fields the form leaves out
      arrive as empty strings. */
  datatype FormFields = FormFields(question: string, region: string, temperature: string, climate: string)

  /** The indentation the triple-quoted query template puts before each line. */
  const Indent: string := "        "

  const QuestionLabel: string := "User Question: "
  const RegionLabel: string := "Region: "
  const TemperatureLabel: string := "Temperature: "
  const ClimateLabel: string := "Climate Type: "

  /** " °C", the unit written after the temperature. */
  const DegreeSuffix: string := " \U{B0}C"

  /** The lines of the combined query: an empty first line, the four labelled
      lines, and the indentation of the closing quotes. */
  function QueryLines(f: FormFields): seq<string> {
    [ [],
      Indent + QuestionLabel + f.question,
      Indent + RegionLabel + f.region,
      Indent + TemperatureLabel + f.temperature + DegreeSuffix,
      Indent + ClimateLabel + f.climate,
      Indent ]
  }

  /** `final_query` in `home`. */
  function FinalQuery(f: FormFields): string {
    Join(QueryLines(f), "\n")
  }

  /** The line break and indentation in front of each line of the query. */
  const LineStart: string := "\n" + Indent

  /** The fixed text in front of each field. */
  const QuestionChunk: string := LineStart + QuestionLabel
  const RegionChunk: string := LineStart + RegionLabel
  const TemperatureChunk: string := LineStart + TemperatureLabel
  const ClimateChunk: string := DegreeSuffix + LineStart + ClimateLabel

  /** Six lines of the query's shape, joined, regrouped as fixed chunks
      interleaved with the four fields. */
  lemma JoinQueryShape(sep: string, ind: string, l1: string, x1: string, l2: string, x2: string,
                       l3: string, x3: string, unit: string, l4: string, x4: string)
    ensures Join([[], ind + l1 + x1, ind + l2 + x2, ind + l3 + x3 + unit, ind + l4 + x4, ind], sep) ==
              (sep + ind + l1) + x1 + (sep + ind + l2) + x2 + (sep + ind + l3)
              + x3 + (unit + sep + ind + l4) + x4 + (sep + ind)
  {
    var lines := [[], ind + l1 + x1, ind + l2 + x2, ind + l3 + x3 + unit, ind + l4 + x4, ind];
    JoinSix(lines, sep);
    var t4 := x4 + (sep + ind);
    var t3 := x3 + ((unit + sep + ind + l4) + t4);
    var t2 := x2 + ((sep + ind + l3) + t3);
    var t1 := x1 + ((sep + ind + l2) + t2);
    assert lines[4] + sep + lines[5] == ind + l4 + t4;
    assert lines[3] + sep + (ind + l4 + t4) == ind + l3 + t3;
    assert lines[2] + sep + (ind + l3 + t3) == ind + l2 + t2;
    assert lines[1] + sep + (ind + l2 + t2) == ind + l1 + t1;
    assert lines[0] + sep + (ind + l1 + t1) == (sep + ind + l1) + t1;
    ConcatNine(sep + ind + l1, x1, sep + ind + l2, x2, sep + ind + l3,
               x3, unit + sep + ind + l4, x4, sep + ind);
  }

  /** The combined query as fixed chunks interleaved with the fields. */
  lemma FinalQueryText(f: FormFields)
    ensures FinalQuery(f) ==
              QuestionChunk + f.question + RegionChunk + f.region + TemperatureChunk
              + f.temperature + ClimateChunk + f.climate + LineStart
  {
    JoinQueryShape("\n", Indent, QuestionLabel, f.question, RegionLabel, f.region,
                   TemperatureLabel, f.temperature, DegreeSuffix, ClimateLabel, f.climate);
  }

  /** Every field, whatever it holds, appears verbatim in the combined query. */
  lemma FinalQueryHoldsFields(f: FormFields)
    ensures Contains(FinalQuery(f), f.question)
    ensures Contains(FinalQuery(f), f.region)
    ensures Contains(FinalQuery(f), f.temperature)
    ensures Contains(FinalQuery(f), f.climate)
  {
    FinalQueryText(f);
    OccursInOrderFour(QuestionChunk, f.question, RegionChunk, f.region, TemperatureChunk,
                      f.temperature, ClimateChunk, f.climate, LineStart);
    var fields := [f.question, f.region, f.temperature, f.climate];
    OccursInOrderContains(FinalQuery(f), fields);
    assert fields[0] == f.question && fields[1] == f.region;
    assert fields[2] == f.temperature && fields[3] == f.climate;
  }

  predicate NewlineFree(f: FormFields) {
    '\n' !in f.question && '\n' !in f.region && '\n' !in f.temperature && '\n' !in f.climate
  }

  /** Reads the four fields back out of a combined query; `None` when the
      text does not have the query's line layout. */
  function ParseFinalQuery(s: string): (r: Option<FormFields>)
    ensures r.Some? ==> NewlineFree(r.value)
  {
    var lines := SplitOn(s, '\n');
    var question, region := Indent + QuestionLabel, Indent + RegionLabel;
    var temperature, climate := Indent + TemperatureLabel, Indent + ClimateLabel;
    if && |lines| == 6
       && lines[0] == []
       && StartsWith(lines[1], question)
       && StartsWith(lines[2], region)
       && |temperature| + |DegreeSuffix| <= |lines[3]|
       && StartsWith(lines[3], temperature)
       && EndsWith(lines[3], DegreeSuffix)
       && StartsWith(lines[4], climate)
       && lines[5] == Indent
    then
      assert forall k :: 0 <= k < 6 ==> '\n' !in lines[k];
      Some(FormFields(
        lines[1][|question|..],
        lines[2][|region|..],
        lines[3][|temperature|..|lines[3]| - |DegreeSuffix|],
        lines[4][|climate|..]))
    else None
  }

  /** Every field comes back out of the combined query unchanged, blank
      fields included, as long as no field holds a line break. */
  lemma FinalQueryRoundTrip(f: FormFields)
    requires NewlineFree(f)
    ensures ParseFinalQuery(FinalQuery(f)) == Some(f)
  {
    var lines := QueryLines(f);
    var question, region := Indent + QuestionLabel, Indent + RegionLabel;
    var temperature, climate := Indent + TemperatureLabel, Indent + ClimateLabel;
    assert '\n' !in question && '\n' !in region && '\n' !in Indent;
    assert '\n' !in temperature && '\n' !in climate && '\n' !in DegreeSuffix;
    forall k | 0 <= k < |lines| ensures '\n' !in lines[k] {
    }
    SplitOnJoin(lines, '\n');
    assert lines[1][..|question|] == question;
    assert lines[2][..|region|] == region;
    assert lines[3][..|temperature|] == temperature;
    assert lines[3][|lines[3]| - |DegreeSuffix|..] == DegreeSuffix;
    assert lines[4][..|climate|] == climate;
    assert lines[1][|question|..] == f.question;
    assert lines[2][|region|..] == f.region;
    assert lines[3][|temperature|..|lines[3]| - |DegreeSuffix|] == f.temperature;
    assert lines[4][|climate|..] == f.climate;
  }

  /** Conversely, a text the parser accepts is exactly the combined query of
      the fields it reads: the layout leaves no room for anything else. */
  lemma ParseFinalQuerySound(s: string)
    requires ParseFinalQuery(s).Some?
    ensures FinalQuery(ParseFinalQuery(s).value) == s
  {
    var lines := SplitOn(s, '\n');
    var f := ParseFinalQuery(s).value;
    var question, region := Indent + QuestionLabel, Indent + RegionLabel;
    var temperature, climate := Indent + TemperatureLabel, Indent + ClimateLabel;
    JoinSplitOn(s, '\n');
    assert lines[1] == lines[1][..|question|] + lines[1][|question|..];
    assert lines[2] == lines[2][..|region|] + lines[2][|region|..];
    assert lines[3] == lines[3][..|temperature|]
                       + lines[3][|temperature|..|lines[3]| - |DegreeSuffix|]
                       + lines[3][|lines[3]| - |DegreeSuffix|..];
    assert lines[4] == lines[4][..|climate|] + lines[4][|climate|..];
    assert QueryLines(f) == lines;
  }

  /** A word followed by whitespace, after whitespace, splits to that word. */
  lemma SplitChunk(before: string, word: string, after: string)
    requires |before| > 0 && AllSpace(before)
    requires |word| > 0 && NoSpace(word)
    requires after == [] || IsSpace(after[0])
    ensures Split(before + word + after) == [word] + Split(after)
  {
    SplitSpaces(before);
    assert before + word + after == before + (word + after);
    SplitAppend(before, word + after);
    SplitAppend(word, after);
    SplitWord(word);
  }

  lemma LineStartIsSpace()
    ensures |LineStart| > 0 && AllSpace(LineStart)
  {
  }

  lemma QuestionChunkWords()
    ensures Split(QuestionChunk) == ["User", "Question:"]
  {
    LineStartIsSpace();
    assert QuestionChunk == LineStart + "User" + (" " + "Question:" + " ");
    SplitChunk(" ", "Question:", " ");
    SplitSpaces(" ");
    SplitChunk(LineStart, "User", " " + "Question:" + " ");
  }

  lemma RegionChunkWords()
    ensures Split(RegionChunk) == ["Region:"]
  {
    LineStartIsSpace();
    assert RegionChunk == LineStart + "Region:" + " ";
    SplitSpaces(" ");
    SplitChunk(LineStart, "Region:", " ");
  }

  lemma TemperatureChunkWords()
    ensures Split(TemperatureChunk) == ["Temperature:"]
  {
    LineStartIsSpace();
    assert TemperatureChunk == LineStart + "Temperature:" + " ";
    SplitSpaces(" ");
    SplitChunk(LineStart, "Temperature:", " ");
  }

  lemma ClimateChunkWords()
    ensures Split(ClimateChunk) == ["\U{B0}C", "Climate", "Type:"]
  {
    LineStartIsSpace();
    var climate := LineStart + "Climate" + (" " + "Type:" + " ");
    assert LineStart + ClimateLabel == climate;
    SplitChunk(" ", "Type:", " ");
    SplitSpaces(" ");
    SplitChunk(LineStart, "Climate", " " + "Type:" + " ");
    assert ClimateChunk == " " + "\U{B0}C" + climate;
    SplitChunk(" ", "\U{B0}C", climate);
  }

  /** The words retrieval sees when it is given the combined query: the label
      words `User`, `Question:`, `Region:`, `Temperature:`, `°C`, `Climate`
      and `Type:` always take part, around the words of each field. */
  lemma CombinedQueryWords(f: FormFields)
    ensures Split(FinalQuery(f)) ==
              ["User", "Question:"] + Split(f.question)
              + ["Region:"] + Split(f.region)
              + ["Temperature:"] + Split(f.temperature)
              + ["\U{B0}C", "Climate", "Type:"] + Split(f.climate)
  {
    LineStartIsSpace();
    FinalQueryText(f);
    assert QuestionChunk[|QuestionChunk| - 1] == ' ';
    assert RegionChunk[0] == '\n' && RegionChunk[|RegionChunk| - 1] == ' ';
    assert TemperatureChunk[0] == '\n' && TemperatureChunk[|TemperatureChunk| - 1] == ' ';
    assert ClimateChunk[0] == ' ' && ClimateChunk[|ClimateChunk| - 1] == ' ';
    SplitInterleaved(QuestionChunk, f.question, RegionChunk, f.region, TemperatureChunk,
                     f.temperature, ClimateChunk, f.climate, LineStart);
    QuestionChunkWords();
    RegionChunkWords();
    TemperatureChunkWords();
    ClimateChunkWords();
    SplitSpaces(LineStart);
    ConcatNine(["User", "Question:"], Split(f.question), ["Region:"], Split(f.region), ["Temperature:"],
               Split(f.temperature), ["\U{B0}C", "Climate", "Type:"], Split(f.climate), []);
  }

  /** The framing line that opens the prompt. */
  const FramingLine: string := "You are an AI assistant for sustainable agriculture."

  /** The instruction line that closes the prompt. */
  const InstructionLine: string := "Answer clearly with crop disease info and soil requirements."

  /** The prompt `ask_llm` builds from the retrieved context and the question. */
  function Prompt(context: string, question: string): string {
    "\n" + FramingLine + "\n\nContext:\n" + context + "\n\nQuestion:\n" + question + "\n\n" + InstructionLine + "\n"
  }

  /** The prompt holds, in this order and without overlap: the framing line,
      the context, the question and the instruction line, the context and the
      question verbatim. */
  lemma PromptLayout(context: string, question: string)
    ensures OccursInOrder(Prompt(context, question), [FramingLine, context, question, InstructionLine])
    ensures Contains(Prompt(context, question), context)
    ensures Contains(Prompt(context, question), question)
  {
    OccursInOrderFour("\n", FramingLine, "\n\nContext:\n", context, "\n\nQuestion:\n", question,
                      "\n\n", InstructionLine, "\n");
    var parts := [FramingLine, context, question, InstructionLine];
    OccursInOrderContains(Prompt(context, question), parts);
    assert parts[1] == context && parts[2] == question;
  }

  /** Whatever the context and question are, the prompt opens with the
      framing line and closes with the instruction line. */
  lemma PromptFraming(context: string, question: string)
    ensures StartsWith(Prompt(context, question), "\n" + FramingLine + "\n")
    ensures EndsWith(Prompt(context, question), "\n" + InstructionLine + "\n")
  {
    var head := "\n" + FramingLine + "\n";
    var foot := "\n" + InstructionLine + "\n";
    var middle := "\nContext:\n" + context + "\n\nQuestion:\n" + question + "\n";
    var p := Prompt(context, question);
    assert p == head + middle + foot;
    assert p[..|head|] == head;
    assert p[|p| - |foot|..] == foot;
  }
}
