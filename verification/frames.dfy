/** The batched frame helpers: `headlessRenderFrame`,
    `headlessRenderFrameStylesEx`, `headlessRenderFrameCells` and `drawFrame`.
    The native renderer is not modelled; its answer to each call is a
    parameter, and the calls the binding issues are returned as a log. */
module Frames {
  import opened Wrappers
  import opened Text
  import opened LayoutArgs

  /** One draw command: widget kind tag, opaque widget pointer, target rectangle. */
  datatype DrawCmd = DrawCmd(kind: nat, widget: nat, rect: Rect)

  /** A native call with the batch it forwards; the command count it passes
      is the batch's length. */
  datatype FrameCall =
    | RenderFrame(width: nat, height: nat, cmds: seq<DrawCmd>)
    | RenderFrameStylesEx(width: nat, height: nat, cmds: seq<DrawCmd>)
    | RenderFrameCells(width: nat, height: nat, cmds: seq<DrawCmd>, cap: nat)
    | DrawFrame(terminal: nat, cmds: seq<DrawCmd>)
    | StringFree

  datatype FrameError = RenderFrameFailed | StylesExFailed | FrameCellsFailed

  /** What a native string-producing render reports: its success flag and,
      on success, the string it allocated. */
  datatype NativeText = NativeText(ok: bool, text: string)

  /** `s.padEnd(n, fill)`. */
  function PadEnd(s: string, n: nat, fill: char): (t: string)
    ensures |t| == if |s| >= n then |s| else n
    ensures t[..|s|] == s
    ensures forall k | |s| <= k < |t| :: t[k] == fill
  {
    if |s| >= n then s else s + seq(n - |s|, _ => fill)
  }

  /** Shared tail of the string renders: make the native call, throw when it
      fails, and otherwise free the string the native side allocated after
      reading it. */
  function ReadNativeString(call: FrameCall, err: FrameError, native: NativeText): (r: (Result<string, FrameError>, seq<FrameCall>))
    ensures native.ok ==> r == (Success(native.text), [call, StringFree])
    ensures !native.ok ==> r == (Failure(err), [call])
  {
    if !native.ok then (Failure(err), [call])
    else (Success(native.text), [call, StringFree])
  }

  /** `headlessRenderFrame`: with no commands, `width * height` spaces and no
      native call; otherwise the native text, whose buffer is freed exactly once. */
  function HeadlessRenderFrame(width: nat, height: nat, cmds: seq<DrawCmd>, native: NativeText): (r: (Result<string, FrameError>, seq<FrameCall>))
    ensures |cmds| == 0 ==>
              r.1 == [] && r.0.Success? && |r.0.value| == width * height
              && forall k | 0 <= k < |r.0.value| :: r.0.value[k] == ' '
    ensures |cmds| > 0 && native.ok ==>
              r == (Success(native.text), [RenderFrame(width, height, cmds), StringFree])
    ensures |cmds| > 0 && !native.ok ==>
              r == (Failure(RenderFrameFailed), [RenderFrame(width, height, cmds)])
  {
    if |cmds| == 0 then (Success(PadEnd("", width * height, ' ')), [])
    else ReadNativeString(RenderFrame(width, height, cmds), RenderFrameFailed, native)
  }

  /** `headlessRenderFrameStylesEx`: the empty string and no native call for
      an empty batch. */
  function HeadlessRenderFrameStylesEx(width: nat, height: nat, cmds: seq<DrawCmd>, native: NativeText): (r: (Result<string, FrameError>, seq<FrameCall>))
    ensures |cmds| == 0 ==> r == (Success(""), [])
    ensures |cmds| > 0 && native.ok ==>
              r == (Success(native.text), [RenderFrameStylesEx(width, height, cmds), StringFree])
    ensures |cmds| > 0 && !native.ok ==>
              r == (Failure(StylesExFailed), [RenderFrameStylesEx(width, height, cmds)])
  {
    if |cmds| == 0 then (Success(""), [])
    else ReadNativeString(RenderFrameStylesEx(width, height, cmds), StylesExFailed, native)
  }

  /** `drawFrame`: `true` and no native call for an empty batch, otherwise
      whatever the native draw reports. */
  function DrawFrameCall(terminal: nat, cmds: seq<DrawCmd>, nativeOk: bool): (r: (bool, seq<FrameCall>))
    ensures |cmds| == 0 ==> r == (true, [])
    ensures |cmds| > 0 ==> r == (nativeOk, [DrawFrame(terminal, cmds)])
  {
    if |cmds| == 0 then (true, []) else (nativeOk, [DrawFrame(terminal, cmds)])
  }

  /** The three helpers with an empty-batch shortcut call the native side
      exactly when the batch is not empty, and then forward the whole batch
      in one call; `headlessRenderFrameCells` has no shortcut and always
      makes its call. */
  lemma NativeCalledIffBatch(width: nat, height: nat, terminal: nat, cmds: seq<DrawCmd>,
                             native: NativeText, nativeOk: bool, count: int, written: seq<CellInfo>)
    ensures (HeadlessRenderFrame(width, height, cmds, native).1 == []) <==> |cmds| == 0
    ensures (HeadlessRenderFrameStylesEx(width, height, cmds, native).1 == []) <==> |cmds| == 0
    ensures (DrawFrameCall(terminal, cmds, nativeOk).1 == []) <==> |cmds| == 0
    ensures |cmds| > 0 ==>
              HeadlessRenderFrame(width, height, cmds, native).1[0].cmds == cmds
              && HeadlessRenderFrameStylesEx(width, height, cmds, native).1[0].cmds == cmds
              && DrawFrameCall(terminal, cmds, nativeOk).1[0].cmds == cmds
    ensures HeadlessRenderFrameCells(width, height, cmds, count, written).1
            == [RenderFrameCells(width, height, cmds, width * height)]
  {
  }

  /** The text layout a headless render produces: `height` rows of `width`
      cells joined by newlines. */
  function BlankGrid(width: nat, height: nat): string
  {
    Join(seq(height, _ => seq(width, _ => ' ')), '\n')
  }

  /** The empty-batch shortcut of `headlessRenderFrame` does not have that
      layout once there are two rows or more: it has no row breaks. */
  lemma EmptyFrameLacksRowBreaks(width: nat, height: nat, native: NativeText)
    requires height >= 2
    ensures var s := HeadlessRenderFrame(width, height, [], native).0.value;
            CountChar(s, '\n') == 0 && CountChar(BlankGrid(width, height), '\n') == height - 1
            && s != BlankGrid(width, height)
  {
    var s := HeadlessRenderFrame(width, height, [], native).0.value;
    CountCharZero(s, '\n');
    var rows: seq<string> := seq(height, _ => seq(width, _ => ' '));
    forall k | 0 <= k < |rows| ensures '\n' !in rows[k] {
      assert forall j | 0 <= j < |rows[k]| :: rows[k][j] == ' ';
    }
    JoinSeparatorCount(rows, '\n');
    SumCountZero(rows, '\n');
  }

  /** One entry of the `FfiCellInfo` array. */
  datatype CellInfo = CellInfo(ch: nat, fg: nat, bg: nat, mods: nat)

  /** The value every slot of the output array holds before the native call. */
  const ZERO_CELL: CellInfo := CellInfo(0, 0, 0, 0)

  /** The output array of `cap` zero-filled slots after the native side wrote
      `written` into it (anything past the capacity is not read). */
  function ReadCells(cap: nat, written: seq<CellInfo>): (cells: seq<CellInfo>)
    ensures |cells| == cap
    ensures forall i | 0 <= i < cap :: cells[i] == (if i < |written| then written[i] else ZERO_CELL)
  {
    seq(cap, i requires 0 <= i < cap => if i < |written| then written[i] else ZERO_CELL)
  }

  function Min(a: int, b: int): int
  {
    if a <= b then a else b
  }

  /** `headlessRenderFrameCells` as written. The native function is declared
      with a boolean result, so `count` is `true` or `false`: `false` throws,
      and `Number(true)` is 1, so at most one cell is returned. There is no
      empty-batch shortcut: the native call is always made. */
  function HeadlessRenderFrameCellsAsWritten(width: nat, height: nat, cmds: seq<DrawCmd>,
                                             nativeOk: bool, written: seq<CellInfo>): (r: (Result<seq<CellInfo>, FrameError>, seq<FrameCall>))
    ensures r.1 == [RenderFrameCells(width, height, cmds, width * height)]
    ensures r.0.Failure? <==> !nativeOk
    ensures r.0.Success? ==> |r.0.value| == Min(width * height, 1)
  {
    var cap := width * height;
    var count := if nativeOk then 1 else 0;  // `Number(count)` of a boolean
    if count <= 0 then (Failure(FrameCellsFailed), [RenderFrameCells(width, height, cmds, cap)])
    else (Success(ReadCells(cap, written)[..Min(cap, count)]), [RenderFrameCells(width, height, cmds, cap)])
  }

  /** On any frame of two cells or more, a successful call as written drops
      every cell after the first, even when the native side filled them all. */
  lemma FrameCellsAsWrittenDropsCells(width: nat, height: nat, cmds: seq<DrawCmd>, written: seq<CellInfo>)
    requires width * height >= 2
    ensures var r := HeadlessRenderFrameCellsAsWritten(width, height, cmds, true, written);
            r.0.Success? && |r.0.value| == 1 < width * height
  {
  }

  /** `headlessRenderFrameCells` with the native result read as the number of
      cells written: a count of zero or less throws; otherwise the first
      `min(width * height, count)` slots of the output array come back. */
  function HeadlessRenderFrameCells(width: nat, height: nat, cmds: seq<DrawCmd>,
                                    count: int, written: seq<CellInfo>): (r: (Result<seq<CellInfo>, FrameError>, seq<FrameCall>))
    ensures r.1 == [RenderFrameCells(width, height, cmds, width * height)]
    ensures r.0.Failure? <==> count <= 0
    ensures r.0.Success? ==>
              |r.0.value| == Min(width * height, count)
              && forall i | 0 <= i < |r.0.value| ::
                   r.0.value[i] == (if i < |written| then written[i] else ZERO_CELL)
  {
    var cap := width * height;
    if count <= 0 then (Failure(FrameCellsFailed), [RenderFrameCells(width, height, cmds, cap)])
    else (Success(ReadCells(cap, written)[..Min(cap, count)]), [RenderFrameCells(width, height, cmds, cap)])
  }

  /** When the native side fills the whole frame and reports it, every cell
      of the frame comes back, in row-major order. */
  lemma FrameCellsWholeFrame(width: nat, height: nat, cmds: seq<DrawCmd>, written: seq<CellInfo>)
    requires |written| == width * height >= 1
    ensures HeadlessRenderFrameCells(width, height, cmds, |written|, written).0 == Success(written)
  {
    var out := ReadCells(width * height, written);
    assert out[..|written|] == written;
  }
}
