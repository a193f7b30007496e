/** Styled text fragments as the decorators hand them to the pane compositor. */
module Spans {

  /** The symbolic style tags the object decorator uses; colours are resolved elsewhere. */
  datatype Style = TextSecondary | TextDim

  /** One styled fragment: its text and the blank columns on either side of it. */
  datatype Span = Span(content: string, marginLeft: nat, marginRight: nat, styles: Style)
  {
    /** Columns the span occupies on the screen. */
    function Width(): nat {
      |content| + marginLeft + marginRight
    }
  }

  /** A rendered line is its spans, left to right. */
  type Row = seq<Span>

  /** A span with both margins left at their default of zero. */
  function Plain(content: string, styles: Style): (sp: Span)
    ensures sp.content == content && sp.styles == styles
    ensures sp.Width() == |content|
  {
    Span(content, 0, 0, styles)
  }

  /** Columns a row occupies: the sum of its spans' widths. */
  function RowWidth(row: Row): nat {
    if row == [] then 0 else row[0].Width() + RowWidth(row[1..])
  }

  /** The text of a row with the margins dropped. */
  function Text(row: Row): string {
    if row == [] then [] else row[0].content + Text(row[1..])
  }

  /** Widths add up when two rows are laid side by side. */
  lemma {:induction false} RowWidthAppend(a: Row, b: Row)
    ensures RowWidth(a + b) == RowWidth(a) + RowWidth(b)
  {
    if a == [] {
      assert a + b == b;
    } else {
      assert (a + b)[0] == a[0] && (a + b)[1..] == a[1..] + b;
      RowWidthAppend(a[1..], b);
    }
  }

  /** A row whose spans carry no margins is exactly as wide as its text. */
  lemma {:induction false} RowWidthNoMargins(row: Row)
    requires forall i :: 0 <= i < |row| ==> row[i].marginLeft == 0 && row[i].marginRight == 0
    ensures RowWidth(row) == |Text(row)|
  {
    if row != [] {
      RowWidthNoMargins(row[1..]);
    }
  }
}
