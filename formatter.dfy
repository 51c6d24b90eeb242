/** The dialogue formatter of format.py: clean-up of the section pieces, the
    question template, role assignment, the table-line filter and the final
    assembly of the records.

    The text extracted from the PDF and the pieces the section regex splits
    it into are given as inputs; the regex itself and the JSON output are not
    modelled. */
module Formatter {
  import opened Text
  import opened Seqs

  datatype Role = System | User | Assistant

  /** One `{"role": ..., "content": ...}` entry. */
  datatype Record = Record(role: Role, content: string)

  const SystemPrompt: string :=
    "You are an AI assistant who helps students with course materials on various subjects."
  const QuestionPrefix: string := "Can you explain the topic of "
  const FallbackTitle: string := "this topic"
  const TablePrefix: string := "Here is some table data:\n"

  // ---------------------------------------------------------------------
  // split_into_sections, after the regex split

  /** A piece survives when something is left after stripping it. */
  predicate NonBlank(piece: string) {
    Strip(piece) != []
  }

  /** The list comprehension of split_into_sections over the split pieces. */
  function SplitIntoSections(pieces: seq<string>): seq<string> {
    Map(Strip, Filter(pieces, NonBlank))
  }

  /** Every section is non-empty and its own strip; the k-th section is the
      stripped k-th surviving piece, the survivors keep their order, and a
      piece survives exactly when it is not all whitespace. */
  lemma SectionsSpec(pieces: seq<string>)
    ensures var sections, ix := SplitIntoSections(pieces), KeptIndices(pieces, NonBlank);
      && |sections| == |ix| <= |pieces|
      && (forall k :: 0 <= k < |sections| ==> sections[k] != [] && Strip(sections[k]) == sections[k])
      && (forall k :: 0 <= k < |ix| ==> ix[k] < |pieces| && sections[k] == Strip(pieces[ix[k]]))
      && (forall k, l :: 0 <= k < l < |ix| ==> ix[k] < ix[l])
      && (forall j :: 0 <= j < |pieces| ==>
            (j in ix <==> exists i :: 0 <= i < |pieces[j]| && !IsSpace(pieces[j][i])))
  {
    var kept := Filter(pieces, NonBlank);
    FilterOrder(pieces, NonBlank);
    forall k | 0 <= k < |kept| ensures Strip(kept[k]) != [] && Strip(Strip(kept[k])) == Strip(kept[k]) {
      assert kept[k] in kept;
      FilterMembership(pieces, NonBlank, kept[k]);
      StripIdempotent(kept[k]);
    }
    forall j | 0 <= j < |pieces|
      ensures NonBlank(pieces[j]) <==> exists i :: 0 <= i < |pieces[j]| && !IsSpace(pieces[j][i])
    {
      StripSpec(pieces[j]);
    }
  }

  // ---------------------------------------------------------------------
  // generate_hypothetical_question

  function HypotheticalQuestion(sectionTitle: string): string {
    QuestionPrefix + Strip(sectionTitle) + "?"
  }

  /** The shape of a generated question: the prefix, a topic, a question mark. */
  predicate IsQuestion(q: string) {
    |q| > |QuestionPrefix| && q[..|QuestionPrefix|] == QuestionPrefix && q[|q| - 1] == '?'
  }

  /** The topic a question asks about. */
  function TopicOf(q: string): string
    requires IsQuestion(q)
  {
    q[|QuestionPrefix|..|q| - 1]
  }

  /** A generated question has the template's shape and asks about the
      stripped title. */
  lemma QuestionTopic(sectionTitle: string)
    ensures IsQuestion(HypotheticalQuestion(sectionTitle))
    ensures TopicOf(HypotheticalQuestion(sectionTitle)) == Strip(sectionTitle)
  {
  }

  /** Conversely, every question of that shape whose topic is stripped is the
      question generated from its topic. */
  lemma QuestionFromTopic(q: string)
    requires IsQuestion(q)
    requires Strip(TopicOf(q)) == TopicOf(q)
    ensures HypotheticalQuestion(TopicOf(q)) == q
  {
  }

  // ---------------------------------------------------------------------
  // assign_roles_to_sections

  /** The title of a section: its first line, with the fallback the source
      keeps for an empty line list. */
  function SectionTitle(section: string): string {
    var lines := Split(section, '\n');
    if |lines| > 0 then lines[0] else FallbackTitle
  }

  /** The assistant content of a section: the lines after the first, joined
      back and stripped. */
  function SectionAnswer(section: string): string {
    var lines := Split(section, '\n');
    Strip(Join(lines[1..], '\n'))
  }

  /** The records one iteration of the loop appends for a section. */
  function SectionRecords(section: string): seq<Record> {
    if section == [] then []
    else
      var answer := SectionAnswer(section);
      [Record(User, HypotheticalQuestion(SectionTitle(section)))]
        + (if answer != [] then [Record(Assistant, answer)] else [])
  }

  /** The fallback title is never used: the title is the text up to the first
      line feed, and the answer is the stripped text after it (nothing when
      the section is one line). */
  lemma SectionParts(section: string)
    ensures var i := IndexOf(section, '\n');
      && SectionTitle(section) == section[..i]
      && SectionAnswer(section) == (if i < |section| then Strip(section[i + 1..]) else [])
  {
    SplitHead(section, '\n');
  }

  const SystemRecord: Record := Record(System, SystemPrompt)

  /** What assign_roles_to_sections returns. */
  function Dialogue(sections: seq<string>): seq<Record> {
    [SystemRecord] + ConcatMap(SectionRecords, sections)
  }

  /** One more section appends its records to the dialogue. */
  lemma DialogueSnoc(sections: seq<string>, section: string)
    ensures Dialogue(sections + [section]) == Dialogue(sections) + SectionRecords(section)
  {
    ConcatMapSnoc(SectionRecords, sections, section);
  }

  method AssignRolesToSections(sections: seq<string>) returns (formattedData: seq<Record>)
    ensures formattedData == Dialogue(sections)
  {
    formattedData := [SystemRecord];
    assert Dialogue(sections[..0]) == formattedData by {
      assert sections[..0] == [];
    }
    for i := 0 to |sections|
      invariant formattedData == Dialogue(sections[..i])
    {
      var section := sections[i];
      ghost var before := formattedData;
      if section != [] {
        var lines := Split(section, '\n');
        var sectionTitle := if |lines| > 0 then lines[0] else FallbackTitle;
        var userPrompt := HypotheticalQuestion(sectionTitle);
        var assistantContent := Strip(Join(lines[1..], '\n'));
        formattedData := formattedData + [Record(User, userPrompt)];
        if assistantContent != [] {
          formattedData := formattedData + [Record(Assistant, assistantContent)];
        }
        assert formattedData == before + SectionRecords(section) by {
          assert SectionTitle(section) == sectionTitle && SectionAnswer(section) == assistantContent;
        }
      }
      TakeSnoc(sections, i);
      DialogueSnoc(sections[..i], section);
    }
    assert sections[..|sections|] == sections;
  }

  /** The records of one section: a user record, then possibly one non-empty
      stripped assistant record. */
  lemma SectionRecordsShape(section: string)
    ensures var rs := SectionRecords(section);
      && |rs| <= 2
      && (section != [] <==> |rs| >= 1)
      && (rs != [] ==> rs[0].role == User)
      && (|rs| == 2 ==> rs[1].role == Assistant)
      && (forall r :: r in rs && r.role == Assistant ==> r.content != [] && Strip(r.content) == r.content)
      && (forall r :: r in rs ==> r.role != System)
  {
    StripIdempotent(Join(Split(section, '\n')[1..], '\n'));
  }

  /** A run of section records: no system record, and every assistant record
      directly follows a user record. */
  predicate Paired(rs: seq<Record>) {
    && (forall k :: 0 <= k < |rs| ==> rs[k].role != System)
    && (rs != [] ==> rs[0].role == User)
    && (forall k :: 1 <= k < |rs| && rs[k].role == Assistant ==> rs[k - 1].role == User)
  }

  /** Two paired runs, one after the other, form a paired run. */
  lemma PairedAppend(a: seq<Record>, b: seq<Record>)
    requires Paired(a) && Paired(b)
    ensures Paired(a + b)
  {
    var ab := a + b;
    forall k | 1 <= k < |ab| && ab[k].role == Assistant
      ensures ab[k - 1].role == User
    {
      if k > |a| {
        assert ab[k] == b[k - |a|] && ab[k - 1] == b[k - |a| - 1];
      }
    }
  }

  lemma {:induction false} SectionRunPaired(sections: seq<string>)
    ensures Paired(ConcatMap(SectionRecords, sections))
    decreases |sections|
  {
    if sections != [] {
      var n := |sections| - 1;
      SectionRunPaired(sections[..n]);
      var rs := SectionRecords(sections[n]);
      SectionRecordsShape(sections[n]);
      assert forall k :: 0 <= k < |rs| ==> rs[k] in rs;
      PairedAppend(ConcatMap(SectionRecords, sections[..n]), rs);
    }
  }

  /** The dialogue starts with the fixed system record and holds no other
      system record; each assistant record directly follows a user record. */
  lemma DialogueShape(sections: seq<string>)
    ensures var d := Dialogue(sections);
      && d[0] == SystemRecord
      && (forall k :: 1 <= k < |d| ==> d[k].role != System)
      && (forall k :: 1 <= k < |d| && d[k].role == Assistant ==> d[k - 1].role == User)
  {
    var run := ConcatMap(SectionRecords, sections);
    SectionRunPaired(sections);
    var d := Dialogue(sections);
    assert forall k :: 1 <= k < |d| ==> d[k] == run[k - 1];
  }

  /** Every assistant content is non-empty and its own strip. */
  lemma AnswersNonEmpty(sections: seq<string>)
    ensures forall r :: r in Dialogue(sections) && r.role == Assistant ==> r.content != [] && Strip(r.content) == r.content
  {
    forall r | r in Dialogue(sections) && r.role == Assistant
      ensures r.content != [] && Strip(r.content) == r.content
    {
      ConcatMapMembership(SectionRecords, sections, r);
      var i :| 0 <= i < |sections| && r in SectionRecords(sections[i]);
      SectionRecordsShape(sections[i]);
    }
  }

  /** The number of non-empty sections. */
  function NonEmptyCount(sections: seq<string>): nat
    decreases |sections|
  {
    if sections == [] then 0
    else NonEmptyCount(sections[..|sections| - 1]) + (if sections[|sections| - 1] != [] then 1 else 0)
  }

  /** For n non-empty sections the dialogue has between 1 + n and 1 + 2n
      records; empty sections add nothing. */
  lemma {:induction false} DialogueLength(sections: seq<string>)
    ensures var n := NonEmptyCount(sections);
      1 + n <= |Dialogue(sections)| <= 1 + 2 * n
    decreases |sections|
  {
    if sections != [] {
      var n := |sections| - 1;
      DialogueLength(sections[..n]);
      SectionRecordsShape(sections[n]);
    }
  }

  predicate IsUserRecord(r: Record) {
    r.role == User
  }

  predicate NonEmptySection(section: string) {
    section != []
  }

  /** The user record a non-empty section yields. */
  function UserRecordOf(section: string): Record {
    Record(User, HypotheticalQuestion(SectionTitle(section)))
  }

  function UserRecordsOf(section: string): seq<Record> {
    Filter(SectionRecords(section), IsUserRecord)
  }

  /** The user records of the dialogue are, in order, one question per
      non-empty section, asked about that section's first line. */
  lemma UserRecords(sections: seq<string>)
    ensures Filter(Dialogue(sections), IsUserRecord)
         == Map(UserRecordOf, Filter(sections, NonEmptySection))
  {
    var run := ConcatMap(SectionRecords, sections);
    FilterAppend([SystemRecord], run, IsUserRecord);
    assert Filter([SystemRecord], IsUserRecord) == [] by {
      assert [SystemRecord][..0] == [];
    }
    FilterConcatMap(SectionRecords, IsUserRecord, UserRecordsOf, sections);
    forall s ensures UserRecordsOf(s) == (if NonEmptySection(s) then [UserRecordOf(s)] else []) {
      var rs := SectionRecords(s);
      SectionRecordsShape(s);
      if |rs| == 2 {
        assert rs == [rs[0]] + [rs[1]];
        FilterSnoc([rs[0]], rs[1], IsUserRecord);
        FilterSnoc([], rs[0], IsUserRecord);
      } else if |rs| == 1 {
        FilterSnoc([], rs[0], IsUserRecord);
      }
    }
    ConcatMapOfOptional(UserRecordsOf, NonEmptySection, UserRecordOf, sections);
  }

  predicate IsAssistantRecord(r: Record) {
    r.role == Assistant
  }

  /** A section that yields an assistant record: non-empty, with something
      left after its first line once stripped. */
  predicate HasAnswer(section: string) {
    section != [] && SectionAnswer(section) != []
  }

  /** The assistant record a section with an answer yields. */
  function AssistantRecordOf(section: string): Record {
    Record(Assistant, SectionAnswer(section))
  }

  function AssistantRecordsOf(section: string): seq<Record> {
    Filter(SectionRecords(section), IsAssistantRecord)
  }

  /** The assistant records of the dialogue are, in order, the stripped rest
      of each non-empty section that has one. */
  lemma AssistantRecords(sections: seq<string>)
    ensures Filter(Dialogue(sections), IsAssistantRecord)
         == Map(AssistantRecordOf, Filter(sections, HasAnswer))
  {
    var run := ConcatMap(SectionRecords, sections);
    FilterAppend([SystemRecord], run, IsAssistantRecord);
    assert Filter([SystemRecord], IsAssistantRecord) == [] by {
      assert [SystemRecord][..0] == [];
    }
    FilterConcatMap(SectionRecords, IsAssistantRecord, AssistantRecordsOf, sections);
    forall s ensures AssistantRecordsOf(s) == (if HasAnswer(s) then [AssistantRecordOf(s)] else []) {
      var rs := SectionRecords(s);
      if |rs| == 2 {
        assert rs == [rs[0]] + [rs[1]];
        FilterSnoc([rs[0]], rs[1], IsAssistantRecord);
        FilterSnoc([], rs[0], IsAssistantRecord);
      } else if |rs| == 1 {
        FilterSnoc([], rs[0], IsAssistantRecord);
      }
    }
    ConcatMapOfOptional(AssistantRecordsOf, HasAnswer, AssistantRecordOf, sections);
  }

  // ---------------------------------------------------------------------
  // handle_tables

  /** `'\t' in line or re.search(r'\s{2,}', line)`. */
  predicate IsTableLine(line: string) {
    '\t' in line || exists i :: 0 <= i < |line| - 1 && IsSpace(line[i]) && IsSpace(line[i + 1])
  }

  /** The lines of the text that look like table rows, in order. */
  function TableLines(text: string): seq<string> {
    Filter(SplitLines(text), IsTableLine)
  }

  method HandleTables(text: string) returns (table: string)
    ensures table == Join(TableLines(text), '\n')
  {
    var lines := SplitLines(text);
    var tableLines := [];
    for i := 0 to |lines|
      invariant tableLines == Filter(lines[..i], IsTableLine)
    {
      var line := lines[i];
      TakeSnoc(lines, i);
      FilterSnoc(lines[..i], line, IsTableLine);
      if '\t' in line || exists j :: 0 <= j < |line| - 1 && IsSpace(line[j]) && IsSpace(line[j + 1]) {
        tableLines := tableLines + [line];
      }
    }
    assert lines[..|lines|] == lines;
    table := Join(tableLines, '\n');
  }

  /** The table lines are exactly the lines of the text that hold a tab or
      two whitespace characters in a row, in their order in the text. */
  lemma TableLinesSpec(text: string)
    ensures var lines, t, ix := SplitLines(text), TableLines(text), KeptIndices(SplitLines(text), IsTableLine);
      && |t| == |ix|
      && (forall k :: 0 <= k < |ix| ==> ix[k] < |lines| && t[k] == lines[ix[k]])
      && (forall k, l :: 0 <= k < l < |ix| ==> ix[k] < ix[l])
      && (forall j :: 0 <= j < |lines| ==> (j in ix <==> IsTableLine(lines[j])))
  {
    FilterOrder(SplitLines(text), IsTableLine);
  }

  /** The table content is empty exactly when no line is a table line, and
      splitting it on line feeds gives back the table lines. */
  lemma TableContent(text: string)
    ensures Join(TableLines(text), '\n') == [] <==> TableLines(text) == []
    ensures TableLines(text) != [] ==> Split(Join(TableLines(text), '\n'), '\n') == TableLines(text)
  {
    var lines, t := SplitLines(text), TableLines(text);
    forall k | 0 <= k < |t| ensures t[k] != [] && '\n' !in t[k] {
      assert t[k] in t;
      FilterMembership(lines, IsTableLine, t[k]);
      var j :| 0 <= j < |lines| && lines[j] == t[k];
      assert forall c :: c in lines[j] ==> !IsLineBreak(c);
    }
    if t != [] {
      assert Join(t, '\n') != [];
      SplitJoin(t, '\n');
    }
  }

  // ---------------------------------------------------------------------
  // process_pdf, from the extracted text and its split pieces

  /** The records process_pdf writes. */
  function Output(rawText: string, pieces: seq<string>): seq<Record> {
    var dialogue := Dialogue(SplitIntoSections(pieces));
    var tableContent := Join(TableLines(rawText), '\n');
    if tableContent != [] then dialogue + [Record(Assistant, TablePrefix + tableContent)] else dialogue
  }

  method ProcessPdf(rawText: string, pieces: seq<string>) returns (structuredData: seq<Record>)
    ensures structuredData == Output(rawText, pieces)
  {
    var tableContent := HandleTables(rawText);
    var sections := SplitIntoSections(pieces);
    structuredData := AssignRolesToSections(sections);
    if tableContent != [] {
      structuredData := structuredData + [Record(Assistant, TablePrefix + tableContent)];
    }
  }

  /** The output is the dialogue, followed by exactly one table record when
      some line of the text is a table line and by nothing otherwise; the
      table record is the only record after the dialogue. */
  lemma OutputSpec(rawText: string, pieces: seq<string>)
    ensures var out, d, t := Output(rawText, pieces), Dialogue(SplitIntoSections(pieces)), TableLines(rawText);
      && out[..|d|] == d
      && (t == [] ==> out == d)
      && (t != [] ==> |out| == |d| + 1 && out[|d|] == Record(Assistant, TablePrefix + Join(t, '\n')))
  {
    TableContent(rawText);
  }
}
