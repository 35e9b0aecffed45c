/** The widget setters whose arguments the binding transforms before the
    native call: the tab-joined text setters, the u64 series setters and the
    nullable selection setters. Every other setter forwards its arguments
    unchanged and is not modelled. */
module WidgetSetters {
  import opened Wrappers
  import opened Text
  import opened U64Codec
  import opened Styles

  /** Cells travel as one string, separated by a horizontal tab. */
  const TAB: char := '\t'

  /** The four setters that send a tab-joined list. */
  datatype CellsSetter = TableSetHeaders | TableAppendRow | TabsSetTitles | BarChartSetLabels

  datatype SeriesSetter = BarChartSetValues | SparklineSetValues

  datatype SelectionSetter = ListSetSelected | TableSetSelected

  /** The native call each setter issues. */
  datatype SetterCall =
    | SendCells(cellsSetter: CellsSetter, text: string)
    | SendSeries(seriesSetter: SeriesSetter, buf: seq<byte>, len: nat)
    | SendSelection(selectionSetter: SelectionSetter, index: int)

  /** `setHeaders`, `appendRow`, `setTitles`, `setLabels`: the cells joined by
      tabs. `n` cells carry `n - 1` separators of their own, and when no cell
      holds a tab the native side recovers the cells by splitting on tabs. */
  function SetCells(setter: CellsSetter, cells: seq<string>): (c: SetterCall)
    ensures c.SendCells? && c.cellsSetter == setter
    ensures |cells| == 0 ==> c.text == ""
    ensures |cells| >= 1 ==> CountChar(c.text, TAB) == |cells| - 1 + SumCount(cells, TAB)
    ensures |cells| >= 1 && (forall k | 0 <= k < |cells| :: TAB !in cells[k]) ==>
              CountChar(c.text, TAB) == |cells| - 1 && Split(c.text, TAB) == cells
  {
    var text := Join(cells, TAB);
    if |cells| >= 1 then
      JoinSeparatorCount(cells, TAB);
      if forall k | 0 <= k < |cells| :: TAB !in cells[k] then
        SumCountZero(cells, TAB);
        SplitJoin(cells, TAB);
        SendCells(setter, text)
      else SendCells(setter, text)
    else SendCells(setter, text)
  }

  /** `BarChart.setValues` / `Sparkline.setValues`: the 8-byte little-endian
      buffer and the value count, or the RangeError the buffer writes throw. */
  method SetValues(setter: SeriesSetter, values: seq<JsNumeric>) returns (r: Result<SetterCall, SeriesError>)
    ensures r.Success? <==> forall i | 0 <= i < |values| :: IsU64(values[i])
    ensures r.Success? ==>
              var c := r.value;
              c.SendSeries? && c.seriesSetter == setter && c.len == |values|
              && |c.buf| == 8 * c.len
              && |UnpackSeries(c.buf)| == |values|
              && forall i | 0 <= i < |values| :: values[i].Integral? && UnpackSeries(c.buf)[i] == values[i].v
    ensures r.Failure? ==>
              var k := r.error.index;
              k < |values| && !IsU64(values[k]) && (forall j | 0 <= j < k :: IsU64(values[j]))
              && (r.error.NotAnInteger? <==> values[k].NonIntegral?)
  {
    var bytes := EncodeSeries(values);
    if bytes.Failure? {
      return Failure(bytes.error);
    }
    EncodeRoundTrip(values, bytes.value);
    return Success(SendSeries(setter, bytes.value, |values|));
  }

  /** `List.setSelected` / `Table.setSelected`: `null` becomes -1, an index is
      sent unchanged, and the native side reads back every selection but an
      explicit -1. */
  function SetSelected(setter: SelectionSetter, index: Option<int>): (c: SetterCall)
    ensures c.SendSelection? && c.selectionSetter == setter
    ensures c.index == NO_SELECTION <==> index.None? || index == Some(NO_SELECTION)
    ensures index != Some(NO_SELECTION) ==> DecodeSelection(c.index) == index
  {
    SelectionRoundTrip(index);
    SendSelection(setter, EncodeSelection(index))
  }
}
