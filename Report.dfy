/** The report builder of the calculator page: how `downloadReport` turns the
    loosely shaped results payload of the calculation service into the ordered
    list of document blocks that is saved as a .docx file. */
module Report {
  import opened Wrappers
  import Base64

  // ---------------------------------------------------------------------
  // The results payload
  // ---------------------------------------------------------------------

  /** A JSON scalar as the service sends it in a table cell. */
  datatype Scalar = Str(s: string) | Num(n: int) | Bool(b: bool)

  /** One entry of `table_data`: `{Parameter, Value}`, either of which may be missing. */
  datatype Item = Item(parameter: Option<Scalar>, value: Option<Scalar>)

  /** `z_statistic_computation` and `confidence_interval`. */
  datatype Formula = Formula(formula: Option<string>, computation: Option<string>)

  /** `decision`, of which the report uses only the explanation. */
  datatype Decision = Decision(explanation: Option<string>)

  /** The results object; every field may be missing. An entry of `table_data`
      may itself be `null`. */
  datatype Results = Results(
    tableData: Option<seq<Option<Item>>>,
    nullAlternative: Option<string>,
    testType: Option<string>,
    rejectionRegion: Option<string>,
    zStatisticComputation: Option<Formula>,
    decision: Option<Decision>,
    conclusion: Option<string>,
    confidenceInterval: Option<Formula>,
    graphImage: Option<string>)

  /** The results object `{}`. */
  const NoFields := Results(None, None, None, None, None, None, None, None, None)

  // ---------------------------------------------------------------------
  // Document blocks
  // ---------------------------------------------------------------------

  /** A table row of two cells. */
  datatype Row = Row(parameter: string, value: string)

  /** The docx blocks the report is made of. */
  datatype Section =
    | Title(text: string)
    | Heading2(text: string)
    | Para(text: string)
    | Table(rows: seq<Row>)
    | Image(data: seq<Base64.byte>, width: nat, height: nat)

  /** The two exceptions building the blocks can throw: the `ReferenceError` of
      the unbound `index` in the row fallback, and the `InvalidCharacterError`
      of `atob`. */
  datatype BuildError = IndexNotDefined | InvalidCharacter

  const ReportTitle := "Z-Test Results"
  const TableHeading := "Provided Information:"
  const GraphHeading := "Graph:"
  const HeaderRow := Row("Parameter", "Value")
  const NotAvailable := "N/A"
  const ImageWidth: nat := 500
  const ImageHeight: nat := 300
  const FileName := "Z-Test-Results.docx"

  // ---------------------------------------------------------------------
  // JavaScript values
  // ---------------------------------------------------------------------

  /** JavaScript truthiness of a string or `undefined`. */
  predicate Filled(t: Option<string>) {
    t.Some? && t.value != ""
  }

  /** The decimal digits of a natural number. */
  function Digits(n: nat): (s: string)
    ensures |s| > 0
    ensures forall i :: 0 <= i < |s| ==> '0' <= s[i] <= '9'
  {
    var d := ('0' as int + n % 10) as char;
    if n < 10 then [d] else Digits(n / 10) + [d]
  }

  /** The number a string of decimal digits denotes. */
  function DigitsValue(s: string): int {
    if s == [] then 0 else 10 * DigitsValue(s[..|s| - 1]) + (s[|s| - 1] as int - '0' as int)
  }

  /** The digits of `n` read back as a decimal number give `n`. */
  lemma {:induction false} DigitsValueOfDigits(n: nat)
    ensures DigitsValue(Digits(n)) == n
    decreases n
  {
    var s := Digits(n);
    if n >= 10 {
      DigitsValueOfDigits(n / 10);
      assert s[..|s| - 1] == Digits(n / 10);
    }
  }

  /** `toString()` of a JSON scalar (numbers restricted to integers). Only the
      empty string turns into the empty string: a number or a boolean never does. */
  function ToJsString(x: Scalar): (t: string)
    ensures t == "" <==> x == Str("")
  {
    match x
    case Str(s) => s
    case Num(n) => if n < 0 then "-" + Digits(-n) else Digits(n)
    case Bool(b) => if b then "true" else "false"
  }

  /** `x?.toString()`. */
  function OptionalString(x: Option<Scalar>): Option<string> {
    match x
    case None => None
    case Some(v) => Some(ToJsString(v))
  }

  /** `item?.Parameter?.toString()`. */
  function ParameterText(item: Option<Item>): Option<string> {
    match item
    case None => None
    case Some(it) => OptionalString(it.parameter)
  }

  /** `item?.Value?.toString()`. */
  function ValueText(item: Option<Item>): Option<string> {
    match item
    case None => None
    case Some(it) => OptionalString(it.value)
  }

  // ---------------------------------------------------------------------
  // The table
  // ---------------------------------------------------------------------

  /** The second cell of a data row: `item?.Value?.toString() || "N/A"`. */
  function ValueCell(item: Option<Item>): (c: string)
    ensures c != ""
    ensures c == NotAvailable || ValueText(item) == Some(c)
  {
    if Filled(ValueText(item)) then ValueText(item).value else NotAvailable
  }

  /** The second cell falls back to "N/A" exactly when the value is missing or
      the empty string (or is itself the text "N/A"); a numeric 0 stays "0". */
  lemma ValueCellFallback(p: Option<Scalar>, v: Option<Scalar>)
    ensures ValueCell(Some(Item(p, v))) == NotAvailable
            <==> v == None || v == Some(Str("")) || v == Some(Str(NotAvailable))
    ensures v == Some(Num(0)) ==> ValueCell(Some(Item(p, v))) == "0"
  {
    if v.Some? {
      if v.value.Num? {
        var n := v.value.n;
        var t := ToJsString(v.value);
        assert '0' <= t[|t| - 1] <= '9';
      }
    }
  }

  /** The data rows, `table_data.map(...)`, or the `ReferenceError` of the
      first entry whose parameter is missing or empty. */
  function DataRows(items: seq<Option<Item>>): Result<seq<Row>, BuildError> {
    if items == [] then Success([])
    else
      var name := ParameterText(items[0]);
      if !Filled(name) then Failure(IndexNotDefined)
      else
        match DataRows(items[1..])
        case Failure(e) => Failure(e)
        case Success(rest) => Success([Row(name.value, ValueCell(items[0]))] + rest)
  }

  /** The map over `table_data` gives one row per entry, in order, with the
      parameter text and the value cell; it throws exactly when some entry's
      parameter is missing or empty. */
  lemma {:induction false} DataRowsSpec(items: seq<Option<Item>>)
    ensures DataRows(items).Success? <==> forall i :: 0 <= i < |items| ==> Filled(ParameterText(items[i]))
    ensures DataRows(items).Failure? ==> DataRows(items).error == IndexNotDefined
    ensures DataRows(items).Success? ==> |DataRows(items).value| == |items|
    ensures DataRows(items).Success? ==> forall i :: 0 <= i < |items| ==>
              DataRows(items).value[i] == Row(ParameterText(items[i]).value, ValueCell(items[i]))
  {
    if items != [] {
      var tail := items[1..];
      DataRowsSpec(tail);
      assert forall i :: 1 <= i < |items| ==> items[i] == tail[i - 1];
      if DataRows(items).Success? {
        var rows := DataRows(items).value;
        assert rows == [Row(ParameterText(items[0]).value, ValueCell(items[0]))] + DataRows(tail).value;
        forall i | 0 <= i < |items|
          ensures rows[i] == Row(ParameterText(items[i]).value, ValueCell(items[i]))
        {
          if i > 0 {
            assert rows[i] == DataRows(tail).value[i - 1];
          }
        }
      }
    }
  }

  /** The table is shown only for a present, non-empty `table_data`. */
  predicate HasTable(r: Results) {
    r.tableData.Some? && |r.tableData.value| > 0
  }

  /** The "Provided Information:" heading and the table, or nothing. */
  function TableBlocks(r: Results): (t: Result<seq<Section>, BuildError>)
    ensures !HasTable(r) ==> t == Success([])
    ensures t.Success? && HasTable(r) ==>
              |t.value| == 2 && t.value[0] == Heading2(TableHeading) && t.value[1].Table?
              && |t.value[1].rows| > 0 && t.value[1].rows[0] == HeaderRow
  {
    if HasTable(r) then
      match DataRows(r.tableData.value)
      case Failure(e) => Failure(e)
      case Success(rows) => Success([Heading2(TableHeading), Table([HeaderRow] + rows)])
    else
      Success([])
  }

  // ---------------------------------------------------------------------
  // The labelled fields
  // ---------------------------------------------------------------------

  /** An entry of the `sections` array: a heading title and its text. */
  datatype Field = Field(title: string, text: Option<string>)

  /** `obj?.formula`, `obj?.computation` and `obj?.explanation`: a missing parent
      object makes the text absent. */
  function FormulaText(f: Option<Formula>): Option<string> {
    match f
    case None => None
    case Some(x) => x.formula
  }

  function ComputationText(f: Option<Formula>): Option<string> {
    match f
    case None => None
    case Some(x) => x.computation
  }

  function ExplanationText(d: Option<Decision>): Option<string> {
    match d
    case None => None
    case Some(x) => x.explanation
  }

  /** The nine labelled fields, in the fixed order of the report. */
  function LabelledFields(r: Results): (fs: seq<Field>)
    ensures |fs| == 9
  {
    [ Field("Null & Alternative Hypothesis", r.nullAlternative),
      Field("Test Type", r.testType),
      Field("Rejection Region", r.rejectionRegion),
      Field("Z-Statistic Computation", FormulaText(r.zStatisticComputation)),
      Field("Computation", ComputationText(r.zStatisticComputation)),
      Field("Decision", ExplanationText(r.decision)),
      Field("Conclusion", r.conclusion),
      Field("Confidence Interval Formula", FormulaText(r.confidenceInterval)),
      Field("Confidence Interval Computation", ComputationText(r.confidenceInterval)) ]
  }

  /** What one field adds: its heading and its paragraph, or nothing. */
  function Contribution(f: Field): seq<Section> {
    if Filled(f.text) then [Heading2(f.title), Para(f.text.value)] else []
  }

  /** The blocks of the `forEach` over the fields, each appended after the ones before it. */
  function LabelledBlocks(fs: seq<Field>): seq<Section> {
    if fs == [] then [] else LabelledBlocks(fs[..|fs| - 1]) + Contribution(fs[|fs| - 1])
  }

  /** The fields whose text is truthy, in order. */
  function FilledFields(fs: seq<Field>): (p: seq<Field>)
    ensures forall i :: 0 <= i < |p| ==> Filled(p[i].text)
  {
    if fs == [] then [] else
      FilledFields(fs[..|fs| - 1]) + (if Filled(fs[|fs| - 1].text) then [fs[|fs| - 1]] else [])
  }

  /** The labelled blocks are heading/paragraph pairs, one pair per truthy field,
      in the order of the fields. */
  lemma {:induction false} LabelledBlocksArePairs(fs: seq<Field>)
    ensures |LabelledBlocks(fs)| == 2 * |FilledFields(fs)|
    ensures forall i :: 0 <= i < |FilledFields(fs)| ==>
              LabelledBlocks(fs)[2 * i] == Heading2(FilledFields(fs)[i].title) &&
              LabelledBlocks(fs)[2 * i + 1] == Para(FilledFields(fs)[i].text.value)
  {
    if fs != [] {
      var init := fs[..|fs| - 1];
      LabelledBlocksArePairs(init);
      var b, p := LabelledBlocks(fs), FilledFields(fs);
      var bi, pi := LabelledBlocks(init), FilledFields(init);
      assert b == bi + Contribution(fs[|fs| - 1]);
      forall i | 0 <= i < |p|
        ensures b[2 * i] == Heading2(p[i].title) && b[2 * i + 1] == Para(p[i].text.value)
      {
        if i < |pi| {
          assert p[i] == pi[i];
        } else {
          assert p[i] == fs[|fs| - 1];
        }
      }
    }
  }

  /** Every labelled block is a second-level heading or a paragraph. */
  lemma LabelledBlocksKinds(fs: seq<Field>)
    ensures forall i :: 0 <= i < |LabelledBlocks(fs)| ==>
              LabelledBlocks(fs)[i].Heading2? || LabelledBlocks(fs)[i].Para?
  {
    LabelledBlocksArePairs(fs);
    var b, p := LabelledBlocks(fs), FilledFields(fs);
    forall i | 0 <= i < |b| ensures b[i].Heading2? || b[i].Para? {
      var k := i / 2;
      assert i == 2 * k || i == 2 * k + 1;
    }
  }

  /** A field's heading appears among the labelled blocks exactly when some field
      with that title has a truthy text. */
  lemma {:induction false} HeadingShownIff(fs: seq<Field>, t: string)
    ensures Heading2(t) in LabelledBlocks(fs)
            <==> exists j :: 0 <= j < |fs| && fs[j].title == t && Filled(fs[j].text)
  {
    if fs != [] {
      var init, last := fs[..|fs| - 1], fs[|fs| - 1];
      HeadingShownIff(init, t);
      assert LabelledBlocks(fs) == LabelledBlocks(init) + Contribution(last);
      if Heading2(t) in LabelledBlocks(fs) {
        if Heading2(t) in LabelledBlocks(init) {
          var j :| 0 <= j < |init| && init[j].title == t && Filled(init[j].text);
          assert fs[j] == init[j];
        } else {
          assert last.title == t && Filled(last.text);
        }
      }
      if exists j :: 0 <= j < |fs| && fs[j].title == t && Filled(fs[j].text) {
        var j :| 0 <= j < |fs| && fs[j].title == t && Filled(fs[j].text);
        if j < |init| {
          assert init[j] == fs[j];
        } else {
          assert Contribution(last)[0] == Heading2(t);
        }
      }
    }
  }

  /** Field by field: the heading of the j-th labelled field is in the report's
      labelled blocks exactly when that field's own text is truthy, whatever the
      other fields hold. */
  lemma FieldShownIff(r: Results, j: nat)
    requires j < 9
    ensures Heading2(LabelledFields(r)[j].title) in LabelledBlocks(LabelledFields(r))
            <==> Filled(LabelledFields(r)[j].text)
  {
    var fs := LabelledFields(r);
    HeadingShownIff(fs, fs[j].title);
    // the nine titles are pairwise distinct
    assert forall a, b :: 0 <= a < 9 && 0 <= b < 9 && fs[a].title == fs[b].title ==> a == b;
  }

  /** A missing parent object leaves its sub-texts absent instead of throwing. */
  lemma MissingParentObjects(r: Results)
    ensures r.zStatisticComputation == None ==>
              LabelledFields(r)[3].text == None && LabelledFields(r)[4].text == None
    ensures r.decision == None ==> LabelledFields(r)[5].text == None
    ensures r.confidenceInterval == None ==>
              LabelledFields(r)[7].text == None && LabelledFields(r)[8].text == None
  {
  }

  // ---------------------------------------------------------------------
  // The graph
  // ---------------------------------------------------------------------

  /** The graph is added only when `graph_image` is truthy. */
  predicate HasGraph(r: Results) {
    Filled(r.graphImage)
  }

  /** The "Graph:" heading and the 500x300 image decoded from base64, or nothing,
      or the exception `atob` throws. */
  function GraphBlocks(r: Results): (g: Result<seq<Section>, BuildError>)
    ensures g.Failure? <==> HasGraph(r) && Base64.Atob(r.graphImage.value).None?
    ensures g.Failure? ==> g.error == InvalidCharacter
    ensures !HasGraph(r) ==> g == Success([])
    ensures g.Success? && HasGraph(r) ==>
              |g.value| == 2 && g.value[0] == Heading2(GraphHeading) && g.value[1].Image?
              && g.value[1].width == ImageWidth && g.value[1].height == ImageHeight
              && g.value[1].data == Base64.ForgivingDecode(r.graphImage.value).value
  {
    if HasGraph(r) then
      match Base64.Atob(r.graphImage.value)
      case None => Failure(InvalidCharacter)
      case Some(bin) =>
        Success([Heading2(GraphHeading), Image(Base64.CharCodes(bin), ImageWidth, ImageHeight)])
    else
      Success([])
  }

  /** The graph the service encoded with `base64.b64encode` comes back byte for
      byte; an empty image encodes to "" and is therefore left out. */
  lemma GraphRoundTrip(r: Results, png: seq<Base64.byte>)
    requires r.graphImage == Some(Base64.Encode(png))
    ensures png == [] ==> GraphBlocks(r) == Success([])
    ensures png != [] ==>
              GraphBlocks(r) == Success([Heading2(GraphHeading), Image(png, ImageWidth, ImageHeight)])
  {
    Base64.ImageBytesRoundTrip(png);
  }

  // ---------------------------------------------------------------------
  // The whole report
  // ---------------------------------------------------------------------

  /** The blocks of the report in their fixed order: title, table, labelled
      pairs, graph; or the first exception thrown while building them. */
  function Sections(r: Results): Result<seq<Section>, BuildError> {
    match TableBlocks(r)
    case Failure(e) => Failure(e)
    case Success(table) =>
      match GraphBlocks(r)
      case Failure(e) => Failure(e)
      case Success(graph) =>
        Success([Title(ReportTitle)] + table + LabelledBlocks(LabelledFields(r)) + graph)
  }

  /** The failure of the table or of the graph is the failure of the whole build;
      otherwise the blocks are the title, the table blocks, the labelled blocks
      and the graph blocks. */
  lemma SectionsCases(r: Results)
    ensures TableBlocks(r).Failure? ==> Sections(r) == Failure(TableBlocks(r).error)
    ensures TableBlocks(r).Success? && GraphBlocks(r).Failure? ==>
              Sections(r) == Failure(GraphBlocks(r).error)
    ensures TableBlocks(r).Success? && GraphBlocks(r).Success? ==>
              Sections(r) == Success([Title(ReportTitle)] + TableBlocks(r).value
                                     + LabelledBlocks(LabelledFields(r)) + GraphBlocks(r).value)
  {
  }

  /** One more iteration of the `forEach` appends that field's contribution. */
  lemma LabelledBlocksStep(fs: seq<Field>, i: nat)
    requires i < |fs|
    ensures LabelledBlocks(fs[..i + 1]) == LabelledBlocks(fs[..i]) + Contribution(fs[i])
  {
    assert fs[..i + 1][..i] == fs[..i];
  }

  /** `sections.forEach(...)`: for each field in order, push its heading and
      its paragraph when its text is truthy. */
  method PushLabelled(children: seq<Section>, fields: seq<Field>) returns (out: seq<Section>)
    ensures out == children + LabelledBlocks(fields)
  {
    out := children;
    var i := 0;
    while i < |fields|
      invariant 0 <= i <= |fields|
      invariant out == children + LabelledBlocks(fields[..i])
    {
      LabelledBlocksStep(fields, i);
      ghost var before := out;
      if Filled(fields[i].text) {
        out := out + [Heading2(fields[i].title)];
        out := out + [Para(fields[i].text.value)];
      }
      assert out == before + Contribution(fields[i]);
      assert (children + LabelledBlocks(fields[..i])) + Contribution(fields[i])
             == children + (LabelledBlocks(fields[..i]) + Contribution(fields[i]));
      i := i + 1;
    }
    assert fields[..i] == fields;
  }

  /** `downloadReport`'s `try` block up to the `Document`: the children pushed
      one by one onto an array, or the exception that aborts it. */
  method BuildChildren(r: Results) returns (res: Result<seq<Section>, BuildError>)
    ensures res == Sections(r)
  {
    SectionsCases(r);
    var children := [Title(ReportTitle)];
    if r.tableData.Some? && |r.tableData.value| > 0 {
      children := children + [Heading2(TableHeading)];
      var rows := DataRows(r.tableData.value);
      if rows.Failure? {
        return Failure(rows.error);
      }
      children := children + [Table([HeaderRow] + rows.value)];
    }
    assert children == [Title(ReportTitle)] + TableBlocks(r).value;
    children := PushLabelled(children, LabelledFields(r));
    ghost var labelled := children;
    if r.graphImage.Some? && r.graphImage.value != "" {
      var bin := Base64.Atob(r.graphImage.value);
      if bin.None? {
        return Failure(InvalidCharacter);
      }
      var imageBuffer := Base64.CharCodes(bin.value);
      children := children + [Heading2(GraphHeading), Image(imageBuffer, ImageWidth, ImageHeight)];
    }
    assert children == labelled + GraphBlocks(r).value;
    res := Success(children);
  }

  /** The number of blocks: the title, two for the table, two per truthy
      labelled field and two for the graph. */
  lemma SectionCount(r: Results)
    requires Sections(r).Success?
    ensures |Sections(r).value| ==
              1 + (if HasTable(r) then 2 else 0) + 2 * |FilledFields(LabelledFields(r))|
                + (if HasGraph(r) then 2 else 0)
  {
    LabelledBlocksArePairs(LabelledFields(r));
  }

  /** The order of the blocks: the title first and only there; the table heading
      and the table next when there is a table; the graph heading and the image
      last when there is a graph; everything between is a labelled heading or
      paragraph. */
  lemma SectionOrder(r: Results)
    requires Sections(r).Success?
    ensures var s := Sections(r).value;
      && s[0] == Title(ReportTitle)
      && (forall i :: 0 < i < |s| ==> !s[i].Title?)
      && (HasTable(r) ==> s[1] == Heading2(TableHeading) && s[2].Table?)
      && (forall i :: 0 <= i < |s| && s[i].Table? ==> HasTable(r) && i == 2)
      && (forall i :: (if HasTable(r) then 3 else 1) <= i < |s| - (if HasGraph(r) then 2 else 0) ==>
            s[i].Heading2? || s[i].Para?)
      && (HasGraph(r) ==> s[|s| - 2] == Heading2(GraphHeading)
                          && s[|s| - 1].Image? && s[|s| - 1].width == ImageWidth
                          && s[|s| - 1].height == ImageHeight)
      && (forall i :: 0 <= i < |s| && s[i].Image? ==> HasGraph(r) && i == |s| - 1)
  {
    SectionsCases(r);
    LabelledBlocksKinds(LabelledFields(r));
    BlockOrder(TableBlocks(r).value, LabelledBlocks(LabelledFields(r)), GraphBlocks(r).value);
  }

  /** Positions of the kinds of block in a title, a table part, labelled
      headings and paragraphs, and a graph part. */
  lemma BlockOrder(table: seq<Section>, labelled: seq<Section>, graph: seq<Section>)
    requires table == [] || (|table| == 2 && table[0] == Heading2(TableHeading) && table[1].Table?)
    requires forall i :: 0 <= i < |labelled| ==> labelled[i].Heading2? || labelled[i].Para?
    requires graph == [] || (|graph| == 2 && graph[0] == Heading2(GraphHeading) && graph[1].Image?)
    ensures var s := [Title(ReportTitle)] + table + labelled + graph;
      && s[0] == Title(ReportTitle)
      && (forall i :: 0 < i < |s| ==> !s[i].Title?)
      && (table != [] ==> s[1] == Heading2(TableHeading) && s[2] == table[1])
      && (forall i :: 0 <= i < |s| && s[i].Table? ==> table != [] && i == 2)
      && (forall i :: 1 + |table| <= i < |s| - |graph| ==> s[i].Heading2? || s[i].Para?)
      && (graph != [] ==> s[|s| - 2] == Heading2(GraphHeading) && s[|s| - 1] == graph[1])
      && (forall i :: 0 <= i < |s| && s[i].Image? ==> graph != [] && i == |s| - 1)
  {
    var s := [Title(ReportTitle)] + table + labelled + graph;
    forall i | 0 <= i < |s|
      ensures (i > 0 ==> !s[i].Title?)
      ensures s[i].Table? ==> table != [] && i == 2
      ensures s[i].Image? ==> graph != [] && i == |s| - 1
      ensures 1 + |table| <= i < |s| - |graph| ==> s[i].Heading2? || s[i].Para?
    {
      if 0 < i <= |table| {
        assert s[i] == table[i - 1];
      } else if |table| < i <= |table| + |labelled| {
        assert s[i] == labelled[i - 1 - |table|];
      } else if i > |table| + |labelled| {
        assert s[i] == graph[i - 1 - |table| - |labelled|];
      }
    }
  }

  /** The table block has the header row followed by one row per entry, in order. */
  lemma TableRows(r: Results)
    requires Sections(r).Success? && HasTable(r)
    ensures Sections(r).value[2].Table?
    ensures var items, rows := r.tableData.value, Sections(r).value[2].rows;
      && |rows| == |items| + 1
      && rows[0] == HeaderRow
      && forall i :: 0 <= i < |items| ==>
           Filled(ParameterText(items[i])) &&
           rows[i + 1] == Row(ParameterText(items[i]).value, ValueCell(items[i]))
  {
    DataRowsSpec(r.tableData.value);
    SectionsCases(r);
    var rows := DataRows(r.tableData.value).value;
    assert Sections(r).value[2] == Table([HeaderRow] + rows);
  }

  /** Building fails exactly when a table entry has no usable parameter or the
      graph is not valid base64; nothing else can make the export fail. */
  lemma BuildFailsIff(r: Results)
    ensures Sections(r).Failure? <==>
      (HasTable(r) && exists i :: 0 <= i < |r.tableData.value| &&
                                  !Filled(ParameterText(r.tableData.value[i])))
      || (HasGraph(r) && Base64.Atob(r.graphImage.value).None?)
  {
    SectionsCases(r);
    if HasTable(r) {
      DataRowsSpec(r.tableData.value);
    }
  }

  /** The labelled blocks are empty exactly when no field has a truthy text. */
  lemma {:induction false} LabelledBlocksEmptyIff(fs: seq<Field>)
    ensures LabelledBlocks(fs) == [] <==> forall i :: 0 <= i < |fs| ==> !Filled(fs[i].text)
  {
    if fs != [] {
      var init := fs[..|fs| - 1];
      LabelledBlocksEmptyIff(init);
      assert forall i :: 0 <= i < |init| ==> init[i] == fs[i];
    }
  }

  /** An entirely empty results object gives exactly the title. */
  lemma EmptyResultsGiveTitle()
    ensures Sections(NoFields) == Success([Title(ReportTitle)])
  {
    var fs := LabelledFields(NoFields);
    assert forall i :: 0 <= i < |fs| ==> fs[i].text == None;
    LabelledBlocksEmptyIff(fs);
    assert !HasTable(NoFields) && !HasGraph(NoFields);
    assert TableBlocks(NoFields) == Success([]) && GraphBlocks(NoFields) == Success([]);
    assert [Title(ReportTitle)] + [] + [] + [] == [Title(ReportTitle)];
  }

  /** When every field has a truthy text, all of them are kept. */
  lemma {:induction false} FilledFieldsOfAll(fs: seq<Field>)
    requires forall i :: 0 <= i < |fs| ==> Filled(fs[i].text)
    ensures FilledFields(fs) == fs
  {
    if fs != [] {
      var init := fs[..|fs| - 1];
      assert forall i :: 0 <= i < |init| ==> init[i] == fs[i];
      FilledFieldsOfAll(init);
      assert fs == init + [fs[|fs| - 1]];
    }
  }

  /** The payload the service sends: a seven-entry table whose parameters are
      named, all nine texts, and the base64 of a non-empty plot. The report then
      has 23 blocks: the title, the table heading, a table of eight rows, nine
      heading/paragraph pairs, the graph heading and the plot itself. */
  lemma ServicePayloadReport(r: Results, png: seq<Base64.byte>)
    requires r.tableData.Some? && |r.tableData.value| == 7
    requires forall i :: 0 <= i < 7 ==> Filled(ParameterText(r.tableData.value[i]))
    requires forall j :: 0 <= j < 9 ==> Filled(LabelledFields(r)[j].text)
    requires r.graphImage == Some(Base64.Encode(png)) && png != []
    ensures Sections(r).Success?
    ensures var s := Sections(r).value;
      && |s| == 23
      && s[0] == Title(ReportTitle) && s[1] == Heading2(TableHeading)
      && s[2].Table? && |s[2].rows| == 8
      && (forall j :: 0 <= j < 9 ==>
            s[3 + 2 * j] == Heading2(LabelledFields(r)[j].title) &&
            s[4 + 2 * j].Para? && LabelledFields(r)[j].text == Some(s[4 + 2 * j].text))
      && s[21] == Heading2(GraphHeading) && s[22] == Image(png, ImageWidth, ImageHeight)
  {
    var fs := LabelledFields(r);
    GraphRoundTrip(r, png);
    DataRowsSpec(r.tableData.value);
    var table := TableBlocks(r).value;
    assert |table| == 2 && table[0] == Heading2(TableHeading) && table[1].Table? && |table[1].rows| == 8;
    SectionsCases(r);
    AllFilledPairs(fs);
    PayloadLayout(table, fs, LabelledBlocks(fs), Image(png, ImageWidth, ImageHeight));
  }

  /** The positions of the blocks of a report with a two-block table, nine
      heading/paragraph pairs and a graph. */
  lemma PayloadLayout(table: seq<Section>, fs: seq<Field>, labelled: seq<Section>, image: Section)
    requires |table| == 2 && table[0] == Heading2(TableHeading) && table[1].Table? && |table[1].rows| == 8
    requires |fs| == 9 && |labelled| == 18
    requires forall j :: 0 <= j < 9 ==>
               labelled[2 * j] == Heading2(fs[j].title) &&
               labelled[2 * j + 1].Para? && fs[j].text == Some(labelled[2 * j + 1].text)
    ensures var s := [Title(ReportTitle)] + table + labelled + [Heading2(GraphHeading), image];
      && |s| == 23
      && s[0] == Title(ReportTitle) && s[1] == Heading2(TableHeading)
      && s[2].Table? && |s[2].rows| == 8
      && (forall j :: 0 <= j < 9 ==>
            s[3 + 2 * j] == Heading2(fs[j].title) &&
            s[4 + 2 * j].Para? && fs[j].text == Some(s[4 + 2 * j].text))
      && s[21] == Heading2(GraphHeading) && s[22] == image
  {
    PairsInReport([Title(ReportTitle)] + table, labelled, [Heading2(GraphHeading), image], 9);
  }

  /** With every field filled, the labelled blocks are the nine pairs in field order. */
  lemma AllFilledPairs(fs: seq<Field>)
    requires forall j :: 0 <= j < |fs| ==> Filled(fs[j].text)
    ensures |LabelledBlocks(fs)| == 2 * |fs|
    ensures forall j :: 0 <= j < |fs| ==>
              LabelledBlocks(fs)[2 * j] == Heading2(fs[j].title) &&
              LabelledBlocks(fs)[2 * j + 1].Para? && fs[j].text == Some(LabelledBlocks(fs)[2 * j + 1].text)
  {
    FilledFieldsOfAll(fs);
    LabelledBlocksArePairs(fs);
  }

  /** Positions in a report of three parts: the pairs sit right after the head. */
  lemma PairsInReport(head: seq<Section>, pairs: seq<Section>, tail: seq<Section>, n: nat)
    requires |pairs| == 2 * n
    ensures var s := head + pairs + tail;
      && |s| == |head| + 2 * n + |tail|
      && (forall k :: 0 <= k < |head| ==> s[k] == head[k])
      && (forall k :: 0 <= k < 2 * n ==> s[|head| + k] == pairs[k])
      && (forall k :: 0 <= k < |tail| ==> s[|head| + 2 * n + k] == tail[k])
  {
  }

  /** A payload holding nothing but a conclusion gives the title, the
      "Conclusion" heading and the conclusion: no table, no graph. */
  lemma ConclusionOnlyReport(c: string)
    requires c != ""
    ensures Sections(NoFields.(conclusion := Some(c)))
            == Success([Title(ReportTitle), Heading2("Conclusion"), Para(c)])
  {
    var r := NoFields.(conclusion := Some(c));
    var fs := LabelledFields(r);
    var f6, f7, f8, f9 := fs[..6], fs[..7], fs[..8], fs;
    assert forall i :: 0 <= i < 6 ==> f6[i].text == None;
    LabelledBlocksEmptyIff(f6);
    assert f7[..6] == f6 && f8[..7] == f7 && f9[..8] == f8;
    assert f7[6] == Field("Conclusion", Some(c));
    assert LabelledBlocks(f7) == LabelledBlocks(f6) + Contribution(f7[6]);
    assert LabelledBlocks(f8) == LabelledBlocks(f7) + Contribution(f8[7]);
    assert Contribution(f8[7]) == [] && Contribution(f9[8]) == [];
    assert LabelledBlocks(f9) == LabelledBlocks(f8) + Contribution(f9[8]);
    assert LabelledBlocks(fs) == [Heading2("Conclusion"), Para(c)];
    assert !HasTable(r) && !HasGraph(r);
    assert TableBlocks(r) == Success([]) && GraphBlocks(r) == Success([]);
    SectionsCases(r);
    assert [Title(ReportTitle)] + [] + [Heading2("Conclusion"), Para(c)] + []
           == [Title(ReportTitle), Heading2("Conclusion"), Para(c)];
  }

  // ---------------------------------------------------------------------
  // The outcome of a download
  // ---------------------------------------------------------------------

  /** What `downloadReport` ends in: refused for want of results, failed
      because building threw, or the blocks saved under a file name. */
  datatype Outcome = Refused | Failed | Saved(name: string, sections: seq<Section>)

  function DownloadOutcome(results: Option<Results>): Outcome {
    match results
    case None => Refused
    case Some(r) =>
      match Sections(r)
      case Failure(_) => Failed
      case Success(s) => Saved(FileName, s)
  }

  /** The file is saved only when there are results and building them did not
      throw, always under "Z-Test-Results.docx" and with the built blocks. */
  lemma SaveConditions(results: Option<Results>)
    ensures DownloadOutcome(results) == Refused <==> results == None
    ensures DownloadOutcome(results) == Failed <==> results.Some? && Sections(results.value).Failure?
    ensures DownloadOutcome(results).Saved? <==> results.Some? && Sections(results.value).Success?
    ensures DownloadOutcome(results).Saved? ==>
              DownloadOutcome(results).name == FileName &&
              DownloadOutcome(results).sections == Sections(results.value).value &&
              DownloadOutcome(results).sections[0] == Title(ReportTitle)
  {
  }

  /** A graph that is not valid base64 makes the whole download fail rather
      than save a document without the graph. */
  lemma UndecodableGraphFails(r: Results)
    requires HasGraph(r) && Base64.ForgivingDecode(r.graphImage.value) == None
    ensures DownloadOutcome(Some(r)) == Failed
  {
    BuildFailsIff(r);
  }

  /** A table entry without a usable parameter makes the whole download fail:
      there is no "Row n" fallback, because `index` is not bound. */
  lemma UnnamedRowFails(r: Results, i: nat)
    requires HasTable(r) && i < |r.tableData.value| && !Filled(ParameterText(r.tableData.value[i]))
    ensures DownloadOutcome(Some(r)) == Failed
  {
    BuildFailsIff(r);
  }
}
