/** RubyJard::ObjectDecorator, the generic fallback decorator: it renders any value
    from its `to_s` text and, over several rows, from its instance variables. */
module Decorators {
  import opened Wrappers
  import opened Spans
  import opened RubyText
  import opened AddressPattern

  /** What the decorator can observe of a runtime value: its `to_s` text and, when it
      responds to `instance_variables` and `instance_variable_get`, its instance
      variables in declaration order (None when it does not). */
  datatype Value = Value(text: string, fields: Option<seq<Field>>)

  /** One instance variable: its name as `to_s` spells it (with the "@") and its value. */
  datatype Field = Field(name: string, value: Value)

  /** A decorator's `decorate_singleline`: a value and a width to the spans of one row. */
  type Decorate = (Value, int) -> Row

  const Ellipsis: string := "…"
  const Bullet: string := "▸"

  /** `decorate_singleline(variable, line_limit:)`. */
  function DecorateSingleline(v: Value, lineLimit: int): (r: Row)
    ensures |r| == 1 || |r| == 4
    ensures forall i :: 0 <= i < |r| ==>
              r[i].styles == TextSecondary && r[i].marginLeft == 0 && r[i].marginRight == 0
    ensures |r| == 4 <==> Split(v.text).Some?
  {
    match Split(v.text)
    case Some(m) =>
      SignatureRow(m.name, FitDetail(m.name, m.detail, lineLimit))
    case None =>
      if |v.text| <= lineLimit then
        [Plain(Take(v.text, lineLimit), TextSecondary)]
      else
        [Plain(Take(v.text, lineLimit - 3) + Ellipsis + ">", TextSecondary)]
  }

  /** The detail as it is shown next to the name: whole if it fits, else cut. */
  function FitDetail(name: string, detail: string, lineLimit: int): string {
    if |detail| < lineLimit - |name| - 3 then detail
    else Take(detail, lineLimit - |name| - 4) + Ellipsis
  }

  /** A detail that does not fit keeps its first line_limit - |name| - 3 characters,
      and one "…" follows. */
  lemma FitDetailTruncated(name: string, detail: string, lineLimit: int)
    requires |detail| >= lineLimit - |name| - 3 && lineLimit - |name| - 4 >= 0
    ensures var n := lineLimit - |name| - 4;
            FitDetail(name, detail, lineLimit) == detail[..n + 1] + "…"
            && |FitDetail(name, detail, lineLimit)| == lineLimit - |name| - 2
  {
    var n := lineLimit - |name| - 4;
    assert Take(detail, n) == detail[..n + 1];
  }

  /** Text that does not look like an object signature and fits (the bound is
      inclusive) comes out unchanged in one span. */
  lemma SinglelineShortPlain(v: Value, lineLimit: int)
    requires Split(v.text).None? && |v.text| <= lineLimit
    ensures DecorateSingleline(v, lineLimit) == [Plain(v.text, TextSecondary)]
  {
    TakeWhole(v.text, lineLimit);
  }

  /** Longer plain text keeps its first line_limit - 2 characters and ends in "…>",
      exactly line_limit characters in all. */
  lemma SinglelineLongPlain(v: Value, lineLimit: int)
    requires Split(v.text).None? && |v.text| > lineLimit >= 3
    ensures DecorateSingleline(v, lineLimit) == [Plain(v.text[..lineLimit - 2] + "…>", TextSecondary)]
    ensures RowWidth(DecorateSingleline(v, lineLimit)) == lineLimit
  {
    var t := Take(v.text, lineLimit - 3);
    assert t == v.text[..lineLimit - 2];
    assert t + Ellipsis + ">" == v.text[..lineLimit - 2] + "…>";
  }

  /** Below a limit of 3 the long plain branch is wider than the limit: the code does
      not clamp it. */
  lemma SinglelineLongPlainNarrow(v: Value, lineLimit: int)
    requires Split(v.text).None? && |v.text| > lineLimit && lineLimit < 3
    ensures RowWidth(DecorateSingleline(v, lineLimit)) > lineLimit
  {
    var r := DecorateSingleline(v, lineLimit);
    assert |r[0].content| >= 2;
    assert RowWidth(r) == r[0].Width() + RowWidth(r[1..]);
  }

  /** The four spans of a matched signature with the given detail. */
  function SignatureRow(name: string, detail: string): Row {
    [Plain("#<", TextSecondary), Plain(name, TextSecondary),
     Plain(detail, TextSecondary), Plain(">", TextSecondary)]
  }

  lemma SignatureRowWidth(name: string, detail: string)
    ensures RowWidth(SignatureRow(name, detail)) == |name| + |detail| + 3
    ensures Text(SignatureRow(name, detail)) == "#<" + name + detail + ">"
  {
    var r := SignatureRow(name, detail);
    assert r[1..][1..][1..][1..] == [];
    assert Text(r[1..][1..][1..]) == ">";
    assert Text(r[1..][1..]) == detail + ">";
    assert Text(r[1..]) == name + detail + ">";
    RowWidthNoMargins(r);
  }

  /** A signature whose detail fits strictly within line_limit - |name| - 3 is shown
      whole: the four spans spell out exactly the matched part of the text, and they
      take fewer than line_limit columns. */
  lemma SinglelineSignatureFits(v: Value, lineLimit: int)
    requires Split(v.text).Some?
    requires var m := Split(v.text).value; |m.detail| < lineLimit - |m.name| - 3
    ensures var m := Split(v.text).value;
            var r := DecorateSingleline(v, lineLimit);
            r == SignatureRow(m.name, m.detail)
            && Text(r) == v.text[m.start..m.start + |m.name| + |m.detail| + 3]
            && RowWidth(r) < lineLimit
  {
    var m := Split(v.text).value;
    SignatureRowWidth(m.name, m.detail);
    SplitSpellsMatch(v.text);
  }

  /** A signature whose detail does not fit keeps the name and cuts the detail to its
      first line_limit - |name| - 3 characters plus one "…", so the row takes
      line_limit + 1 columns: one more than the limit. */
  lemma SinglelineSignatureTruncated(v: Value, lineLimit: int)
    requires Split(v.text).Some?
    requires var m := Split(v.text).value;
             |m.detail| >= lineLimit - |m.name| - 3 && lineLimit - |m.name| - 4 >= 0
    ensures var m := Split(v.text).value;
            var r := DecorateSingleline(v, lineLimit);
            var n := lineLimit - |m.name| - 4;
            r == SignatureRow(m.name, m.detail[..n + 1] + "…")
            && |r[2].content| == lineLimit - |m.name| - 2
            && RowWidth(r) == lineLimit + 1
  {
    var m := Split(v.text).value;
    var n := lineLimit - |m.name| - 4;
    FitDetailTruncated(m.name, m.detail, lineLimit);
    SignatureRowWidth(m.name, m.detail[..n + 1] + "…");
  }

  /** A worked case: "#<Foo:0x00001234 extra details...>" at a line limit of 20. The
      detail is cut to its first 14 characters plus "…", 15 in all, and the row takes 21
      columns. */
  const FooName: string := "Foo"
  const FooDetail: string := ":0x00001234 extra details..."

  lemma FooSplit(s: string)
    requires s == "#<" + FooName + FooDetail + ">"
    ensures Split(s) == Some(Signature(0, FooName, FooDetail))
  {
    FooMatchesFirst(s);
    FooParts(s);
    SplitIsFirstTried(s, 0, 5, 33);
  }

  lemma FooMatchesFirst(s: string)
    requires s == "#<" + FooName + FooDetail + ">"
    ensures IsMatch(s, 0, 5, 33)
    ensures forall q', e', g' :: IsMatch(s, q', e', g') ==> TriedFirst(0, 5, 33, q', e', g')
  {
    assert |s| == 34 && IsMatch(s, 0, 5, 33);
    assert forall j :: 5 < j < |s| ==> s[j] != ':';
    forall q', e', g' | IsMatch(s, q', e', g') ensures TriedFirst(0, 5, 33, q', e', g') {
      assert s[e'] == ':';
    }
  }

  lemma FooParts(s: string)
    requires s == "#<" + FooName + FooDetail + ">"
    ensures |s| == 34 && s[2..5] == FooName && s[5..33] == FooDetail
  {
    assert s == ("#<" + FooName) + (FooDetail + ">");
    assert s[5..] == FooDetail + ">";
    assert s[..5] == "#<" + FooName;
    assert s[5..33] == s[5..][..28];
  }

  lemma SinglelineFooAt20(v: Value)
    requires v.text == "#<" + FooName + FooDetail + ">"
    ensures var r := DecorateSingleline(v, 20);
            r == SignatureRow(FooName, ":0x00001234 ex" + "…")
            && |r[2].content| == 15 && RowWidth(r) == 21
  {
    FooSplit(v.text);
    SinglelineSignatureTruncated(v, 20);
    assert FooDetail[..14] == ":0x00001234 ex";
  }

  /** The three spans that open an instance-variable row: an indented bullet, the
      variable's name and "=". */
  function FieldPrefix(name: string): Row {
    [Span(Bullet, 2, 1, TextDim), Span(name, 0, 1, TextSecondary), Span("=", 0, 1, TextSecondary)]
  }

  /** The row for one instance variable: the prefix, then the general decorator's
      single-line rendering of its value in the width the prefix leaves. */
  function FieldRow(f: Field, lineLimit: int, general: Decorate): Row {
    FieldPrefix(f.name) + general(f.value, lineLimit - |f.name| - 7)
  }

  /** The closing row that counts the instance variables left out. */
  function SummaryRow(remaining: nat): Row {
    [Span(Bullet + " " + NatToString(remaining) + " more...", 2, 0, TextDim)]
  }

  /** How many of total instance variables get a row: the loop stops once lines - 2
      rows are out, but tests that only after appending, so one always shows. */
  function ShownCount(total: nat, lines: int): nat {
    if total == 0 then 0
    else if lines - 2 <= 1 then 1
    else if total < lines - 2 then total
    else lines - 2
  }

  /** The rows `decorate_multiline` returns, described all at once: the value's own
      row, one row per shown instance variable in declaration order, and a summary
      row when some were left out. */
  function MultilineRows(v: Value, firstLineLimit: int, lines: int, lineLimit: int, general: Decorate): seq<Row> {
    [DecorateSingleline(v, firstLineLimit)] +
    match v.fields
    case None => []
    case Some(fs) => FieldSection(fs, lines, lineLimit, general)
  }

  lemma MultilineRowsWithFields(v: Value, firstLineLimit: int, lines: int, lineLimit: int, general: Decorate)
    requires v.fields.Some?
    ensures MultilineRows(v, firstLineLimit, lines, lineLimit, general)
            == [DecorateSingleline(v, firstLineLimit)] + FieldSection(v.fields.value, lines, lineLimit, general)
  {
  }

  /** The rows after row 0 for a value with instance variables fs. */
  function FieldSection(fs: seq<Field>, lines: int, lineLimit: int, general: Decorate): seq<Row> {
    var k := ShownCount(|fs|, lines);
    FieldRows(if k <= |fs| then fs[..k] else fs, lineLimit, general)
    + (if |fs| > k then [SummaryRow(|fs| - k)] else [])
  }

  lemma FieldSectionParts(fs: seq<Field>, lines: int, lineLimit: int, general: Decorate)
    ensures var k := ShownCount(|fs|, lines);
            k <= |fs|
            && FieldSection(fs, lines, lineLimit, general)
               == FieldRows(fs[..k], lineLimit, general) + (if |fs| > k then [SummaryRow(|fs| - k)] else [])
  {
    assert fs[..|fs|] == fs;
  }

  /** One row per instance variable, in the order given. */
  function FieldRows(fs: seq<Field>, lineLimit: int, general: Decorate): (rows: seq<Row>)
    ensures |rows| == |fs|
  {
    if fs == [] then [] else FieldRows(fs[..|fs| - 1], lineLimit, general) + [FieldRow(fs[|fs| - 1], lineLimit, general)]
  }

  /** The i-th field row belongs to the i-th instance variable: no field is dropped,
      repeated or moved. */
  lemma {:induction false} FieldRowsInOrder(fs: seq<Field>, lineLimit: int, general: Decorate, i: nat)
    requires i < |fs|
    ensures |FieldRows(fs, lineLimit, general)| == |fs|
    ensures FieldRows(fs, lineLimit, general)[i] == FieldRow(fs[i], lineLimit, general)
  {
    var init := fs[..|fs| - 1];
    if i < |init| {
      FieldRowsInOrder(init, lineLimit, general, i);
    } else if init != [] {
      FieldRowsInOrder(init, lineLimit, general, 0);
    }
  }

  /** The prefix takes exactly the |name| + 7 columns that are deducted from the
      field value's width: bullet 1 + 2 + 1, name |name| + 1, "=" 1 + 1. */
  lemma FieldPrefixWidth(name: string)
    ensures RowWidth(FieldPrefix(name)) == |name| + 7
  {
    var p := FieldPrefix(name);
    assert p[1..][1..][1..] == [];
    assert RowWidth(p[1..][1..]) == 2;
  }

  /** A field row is as wide as its prefix plus whatever the general decorator returned
      for the width it was given. */
  lemma FieldRowWidth(f: Field, lineLimit: int, general: Decorate)
    ensures RowWidth(FieldRow(f, lineLimit, general))
            == |f.name| + 7 + RowWidth(general(f.value, lineLimit - |f.name| - 7))
  {
    FieldPrefixWidth(f.name);
    RowWidthAppend(FieldPrefix(f.name), general(f.value, lineLimit - |f.name| - 7));
  }

  /** The number of field rows is the least of the field count and max(1, lines - 2). */
  lemma ShownCountIsMin(total: nat, lines: int)
    ensures var k := ShownCount(total, lines);
            var cap := if lines - 2 > 1 then lines - 2 else 1;
            k <= total && k <= cap && (k == total || k == cap)
            && (total >= 1 ==> k >= 1)
  {
  }

  /** The summary row names the exact number of instance variables left out:
      "▸ ", that number's digits, " more...". */
  lemma SummaryRowCount(remaining: nat)
    ensures var c := SummaryRow(remaining)[0].content;
            |c| == |NatToString(remaining)| + 10
            && c[..2] == "▸ " && c[|c| - 8..] == " more..."
            && (forall i :: 2 <= i < |c| - 8 ==> IsDigit(c[i]))
            && DecimalValue(c[2..|c| - 8]) == remaining
  {
    var c := SummaryRow(remaining)[0].content;
    var d := NatToString(remaining);
    assert c == "▸ " + d + " more...";
    assert c[2..|c| - 8] == d;
    DecimalRoundTrip(remaining);
  }

  /** Row 0 is always the value's own single-line rendering at first_line_limit; a value
      without instance variables gets that row only. */
  lemma MultilineFirstRow(v: Value, firstLineLimit: int, lines: int, lineLimit: int, general: Decorate)
    ensures var rows := MultilineRows(v, firstLineLimit, lines, lineLimit, general);
            |rows| >= 1 && rows[0] == DecorateSingleline(v, firstLineLimit)
            && (v.fields.None? ==> rows == [DecorateSingleline(v, firstLineLimit)])
  {
  }

  /** Row i + 1 belongs to the i-th instance variable in declaration order: its prefix,
      then the general decorator's output for its value at line_limit - |name| - 7. */
  lemma MultilineFieldRow(v: Value, firstLineLimit: int, lines: int, lineLimit: int, general: Decorate, i: nat)
    requires v.fields.Some? && i < ShownCount(|v.fields.value|, lines)
    ensures var rows := MultilineRows(v, firstLineLimit, lines, lineLimit, general);
            var f := v.fields.value[i];
            i + 1 < |rows|
            && rows[i + 1] == FieldPrefix(f.name) + general(f.value, lineLimit - |f.name| - 7)
            && RowWidth(rows[i + 1]) == |f.name| + 7 + RowWidth(general(f.value, lineLimit - |f.name| - 7))
  {
    var fs := v.fields.value;
    var k := ShownCount(|fs|, lines);
    FieldRowsInOrder(fs[..k], lineLimit, general, i);
    FieldRowWidth(fs[i], lineLimit, general);
  }

  /** A summary row is added exactly when some instance variables were not shown, it is
      the last row, and it counts exactly those left out. */
  lemma MultilineSummary(v: Value, firstLineLimit: int, lines: int, lineLimit: int, general: Decorate)
    requires v.fields.Some?
    ensures var rows := MultilineRows(v, firstLineLimit, lines, lineLimit, general);
            var total := |v.fields.value|;
            var k := ShownCount(total, lines);
            (total > k ==> |rows| == k + 2 && rows[k + 1] == SummaryRow(total - k))
            && (total <= k ==> |rows| == k + 1)
  {
  }

  /** With a budget of at least three rows the result never has more rows than the
      budget, and has exactly that many when the instance variables do not all fit.
      Below three rows the budget is not kept: one field row and a summary still come. */
  lemma MultilineRowBudget(v: Value, firstLineLimit: int, lines: int, lineLimit: int, general: Decorate)
    ensures var rows := MultilineRows(v, firstLineLimit, lines, lineLimit, general);
            (lines >= 3 ==> |rows| <= lines)
            && (lines >= 3 && v.fields.Some? && |v.fields.value| > lines - 2 ==> |rows| == lines)
            && (lines <= 2 && v.fields.Some? && |v.fields.value| >= 2 ==> |rows| == 3)
  {
    if v.fields.Some? {
      MultilineSummary(v, firstLineLimit, lines, lineLimit, general);
    }
  }

  /** Five instance variables and four rows: the value's row, two field rows and
      "▸ 3 more...". */
  lemma MultilineFiveFieldsFourLines(v: Value, firstLineLimit: int, lineLimit: int, general: Decorate)
    requires v.fields.Some? && |v.fields.value| == 5
    ensures var rows := MultilineRows(v, firstLineLimit, 4, lineLimit, general);
            |rows| == 4 && rows[3] == [Span("▸ 3 more...", 2, 0, TextDim)]
  {
    assert ShownCount(5, 4) == 2;
    MultilineSummary(v, firstLineLimit, 4, lineLimit, general);
    SummaryRowThree();
  }

  lemma SummaryRowThree()
    ensures SummaryRow(3) == [Span("▸ 3 more...", 2, 0, TextDim)]
  {
    assert NatToString(3) == "3";
    assert Bullet + " " + "3" + " more..." == "▸ 3 more...";
  }

  /** One instance variable and four rows: the value's row and the field row, no summary. */
  lemma MultilineOneFieldFourLines(v: Value, firstLineLimit: int, lineLimit: int, general: Decorate)
    requires v.fields.Some? && |v.fields.value| == 1
    ensures var rows := MultilineRows(v, firstLineLimit, 4, lineLimit, general);
            |rows| == 2 && rows[1] == FieldRow(v.fields.value[0], lineLimit, general)
  {
  }

  /** RubyJard::ObjectDecorator. Its collaborator for field values is fixed when it
      is built. */
  class ObjectDecorator {
    const general: Decorate

    constructor (general: Decorate)
      ensures this.general == general
    {
      this.general := general;
    }

    /** `decorate_multiline(variable, first_line_limit:, lines:, line_limit:)`. */
    method DecorateMultiline(v: Value, firstLineLimit: int, lines: int, lineLimit: int)
      returns (spans: seq<Row>)
      ensures spans == MultilineRows(v, firstLineLimit, lines, lineLimit, general)
    {
      var first := DecorateSingleline(v, firstLineLimit);
      spans := [first];
      if v.fields.None? {
        MultilineFirstRow(v, firstLineLimit, lines, lineLimit, general);
        return;
      }
      var instanceVariables := v.fields.value;
      var itemCount := 0;
      for i := 0 to |instanceVariables|
        invariant itemCount == i <= ShownCount(|instanceVariables|, lines)
        invariant i > 0 ==> i < lines - 2
        invariant spans == [first] + FieldRows(instanceVariables[..i], lineLimit, general)
      {
        var f := instanceVariables[i];
        assert instanceVariables[..i + 1][..i] == instanceVariables[..i];
        assert FieldRows(instanceVariables[..i + 1], lineLimit, general)
               == FieldRows(instanceVariables[..i], lineLimit, general) + [FieldRow(f, lineLimit, general)];
        spans := spans + [
          [Span(Bullet, 2, 1, TextDim), Span(f.name, 0, 1, TextSecondary), Span("=", 0, 1, TextSecondary)]
          + general(f.value, lineLimit - |f.name| - 7)
        ];
        itemCount := itemCount + 1;
        if itemCount >= lines - 2 {
          break;
        }
      }
      assert itemCount == ShownCount(|instanceVariables|, lines);
      FieldSectionParts(instanceVariables, lines, lineLimit, general);
      if |instanceVariables| > itemCount {
        spans := spans + [
          [Span(Bullet + " " + NatToString(|instanceVariables| - itemCount) + " more...", 2, 0, TextDim)]
        ];
      }
      MultilineRowsWithFields(v, firstLineLimit, lines, lineLimit, general);
    }
  }
}
