/**
  The freehand drawing surface of components/DrawingCanvas.tsx.

  The pixel buffer is opaque. The browser's rasteriser (stroking a path with a
  style) and its PNG export are collaborators the model cannot see, so they are
  passed in as functions; a fully transparent buffer is the distinguished
  constant `Cleared`.
 */
module DrawingCanvas {
  import opened Wrappers
  import History

  /** The pixel content of the canvas; only equality is observable. */
  type Buffer(==, 0)

  /** What a freshly sized canvas holds and what `clearRect` over the whole canvas leaves. */
  const Cleared: Buffer

  datatype Tool = Pen | Eraser

  /** Canvas `globalCompositeOperation` values the surface uses. */
  datatype Composite = SourceOver | DestinationOut

  datatype LineCap = Butt | RoundCap | Square
  datatype LineJoin = Miter | RoundJoin | Bevel
  datatype Colour = Black

  datatype Point = Point(x: int, y: int)

  /** The result of `getBoundingClientRect`: top-left corner and size, in CSS pixels. */
  datatype Rect = Rect(left: int, top: int, width: int, height: int)

  /** The stroke settings of a 2-D context. */
  datatype Style = Style(composite: Composite, lineWidth: nat, lineCap: LineCap, lineJoin: LineJoin, strokeStyle: Colour)

  /** A 2-D context: its style and the points of its current path. */
  datatype Context = Context(style: Style, path: seq<Point>)

  /** Stroking a path onto a buffer with a style, as the browser does it. */
  type Renderer = (Buffer, Style, seq<Point>) -> Buffer

  /** Flattening over white and PNG-encoding a buffer, as `toDataURL` does it. */
  type Exporter = Buffer -> string

  /**
    The state of one surface: whether the canvas element is attached, its pixels,
    the context once obtained, the `isDrawing` gate and the snapshot history.
   */
  datatype Surface = Surface(mounted: bool, buffer: Buffer, context: Option<Context>, drawing: bool, history: seq<Buffer>)

  /** A touch point or mouse position in viewport coordinates. */
  datatype ClientPoint = ClientPoint(clientX: int, clientY: int)

  datatype PointerEvent =
    | Mouse(at: ClientPoint)
    | Touch(touches: seq<ClientPoint>, changedTouches: seq<ClientPoint>)

  /** The canvas just attached, before any effect has run. */
  const Fresh: Surface := Surface(true, Cleared, None, false, [])

  /**
    The history invariant: with a context, the history holds 1 to 30 snapshots and,
    outside a stroke, its top is the current buffer; without one, nothing was saved.
   */
  ghost predicate Valid(s: Surface)
  {
    if s.context.Some? then
      && s.mounted
      && 1 <= |s.history| <= History.MaxEntries
      && (!s.drawing ==> s.buffer == s.history[|s.history| - 1])
    else
      s.history == []
  }

  /** Compositing mode and stroke width per tool (components/DrawingCanvas.tsx:47-48). */
  function ToolSetting(t: Tool): (r: (Composite, nat))
    ensures t == Eraser <==> r.0 == DestinationOut
    ensures r.1 == if t == Eraser then 20 else 4
  {
    if t == Eraser then (DestinationOut, 20) else (SourceOver, 4)
  }

  /** The style a context has right after the setup effect configures it. */
  const InitialStyle: Style := Style(SourceOver, 4, RoundCap, RoundJoin, Black)

  /** `saveHistory`: snapshot the buffer onto the history, when canvas and context exist. */
  function SaveHistory(s: Surface): (r: Surface)
    ensures r.buffer == s.buffer && r.context == s.context && r.drawing == s.drawing && r.mounted == s.mounted
    ensures s.mounted && s.context.Some? ==>
      && |r.history| > 0 && r.history[|r.history| - 1] == s.buffer
      && (|s.history| < History.MaxEntries ==> r.history == s.history + [s.buffer])
      && (|s.history| == History.MaxEntries ==> |r.history| == History.MaxEntries && r.history[..|r.history| - 1] == s.history[1..])
    ensures !(s.mounted && s.context.Some?) ==> r == s
    ensures Valid(s) && s.context.Some? ==> 1 <= |r.history| <= History.MaxEntries
  {
    if s.mounted && s.context.Some? then s.(history := History.Push(s.history, s.buffer)) else s
  }

  /**
    The setup effect: with a non-empty bounding rectangle, size the canvas (which
    clears it), obtain and configure the context and save the first snapshot.
    `contextAvailable` is whether `getContext('2d')` returned a context.
   */
  function Initialise(s: Surface, rect: Rect, contextAvailable: bool): (r: Surface)
    ensures !s.mounted || rect.width == 0 || rect.height == 0 ==> r == s
    ensures s.mounted && rect.width != 0 && rect.height != 0 ==>
      && r.buffer == Cleared
      && r.drawing == s.drawing
      && (contextAvailable ==> r.context == Some(Context(InitialStyle, [])))
      && (contextAvailable && s.history == [] ==> r.history == [Cleared])
      && (!contextAvailable ==> r.context == s.context && r.history == s.history)
  {
    if !s.mounted || rect.width == 0 || rect.height == 0 then s
    else
      var sized := s.(buffer := Cleared);
      if contextAvailable then
        SaveHistory(sized.(context := Some(Context(InitialStyle, []))))
      else sized
  }

  /** The tool effect: restyle the context, if there is one, for the selected tool. */
  function ApplyTool(s: Surface, t: Tool): (r: Surface)
    ensures r.buffer == s.buffer && r.history == s.history && r.drawing == s.drawing && r.mounted == s.mounted
    ensures r.context.Some? <==> s.context.Some?
    ensures s.context.Some? ==>
      && (r.context.value.style.composite, r.context.value.style.lineWidth) == ToolSetting(t)
      && r.context.value.path == s.context.value.path
      && r.context.value.style.lineCap == s.context.value.style.lineCap
      && r.context.value.style.lineJoin == s.context.value.style.lineJoin
  {
    match s.context
    case None => s
    case Some(ctx) =>
      var (composite, width) := ToolSetting(t);
      s.(context := Some(ctx.(style := ctx.style.(composite := composite, lineWidth := width))))
  }

  /** Mounting runs the setup effect and then the tool effect, in declaration order. */
  function Mount(rect: Rect, contextAvailable: bool, t: Tool): Surface
  {
    ApplyTool(Initialise(Fresh, rect, contextAvailable), t)
  }

  /** The bounding rectangle as `canvasRef.current?.getBoundingClientRect()` yields it. */
  function BoundingRect(s: Surface, rect: Rect): Option<Rect>
  {
    if s.mounted then Some(rect) else None
  }

  /** The viewport point an event designates, if it designates one. */
  function EventPoint(ev: PointerEvent): (r: Option<ClientPoint>)
    ensures ev.Mouse? ==> r == Some(ev.at)
    ensures ev.Touch? && |ev.touches| > 0 ==> r == Some(ev.touches[0])
    ensures ev.Touch? && |ev.touches| == 0 && |ev.changedTouches| > 0 ==> r == Some(ev.changedTouches[0])
    ensures r.None? <==> ev.Touch? && |ev.touches| == 0 && |ev.changedTouches| == 0
  {
    match ev
    case Mouse(p) => Some(p)
    case Touch(touches, changed) =>
      if |touches| > 0 then Some(touches[0])
      else if |changed| > 0 then Some(changed[0])
      else None
  }

  /**
    `getCoordinates`: the event's viewport point relative to the canvas's top-left
    corner, or the origin when there is no rectangle or no touch point.
   */
  function GetCoordinates(ev: PointerEvent, rect: Option<Rect>): (r: Point)
    ensures rect.None? || EventPoint(ev).None? ==> r == Point(0, 0)
    ensures rect.Some? && EventPoint(ev).Some? ==>
      r.x + rect.value.left == EventPoint(ev).value.clientX && r.y + rect.value.top == EventPoint(ev).value.clientY
  {
    match rect
    case None => Point(0, 0)
    case Some(box) =>
      match EventPoint(ev)
      case None => Point(0, 0)
      case Some(p) => Point(p.clientX - box.left, p.clientY - box.top)
  }

  /** `startDrawing`: begin a new path at the event's point and open the gate. */
  function StartDrawing(s: Surface, ev: PointerEvent, rect: Rect): (r: Surface)
    ensures r.drawing
    ensures r.buffer == s.buffer && r.history == s.history && r.mounted == s.mounted
    ensures r.context.Some? <==> s.context.Some?
    ensures s.context.Some? ==>
      r.context.value.style == s.context.value.style
      && r.context.value.path == [GetCoordinates(ev, BoundingRect(s, rect))]
  {
    var p := GetCoordinates(ev, BoundingRect(s, rect));
    var context := match s.context
      case None => None
      case Some(ctx) => Some(ctx.(path := [p]));
    s.(context := context, drawing := true)
  }

  /** `draw`: while the gate is open, extend the path to the event's point and stroke it. */
  function Draw(s: Surface, ev: PointerEvent, rect: Rect, render: Renderer): (r: Surface)
    ensures !s.drawing ==> r == s
    ensures r.history == s.history && r.drawing == s.drawing && r.mounted == s.mounted
    ensures r.context.Some? <==> s.context.Some?
    ensures s.drawing && s.context.Some? ==>
      var path := s.context.value.path + [GetCoordinates(ev, BoundingRect(s, rect))];
      && r.context.value == s.context.value.(path := path)
      && r.buffer == render(s.buffer, s.context.value.style, path)
    ensures s.context.None? ==> r == s
  {
    if !s.drawing then s
    else
      match s.context
      case None => s
      case Some(ctx) =>
        var path := ctx.path + [GetCoordinates(ev, BoundingRect(s, rect))];
        s.(context := Some(ctx.(path := path)), buffer := render(s.buffer, ctx.style, path))
  }

  /** `finishDrawing`: commit a snapshot if a stroke was open, and close the gate. */
  function FinishDrawing(s: Surface): (r: Surface)
    ensures !r.drawing
    ensures !s.drawing ==> r == s
    ensures r.buffer == s.buffer && r.context == s.context && r.mounted == s.mounted
    ensures s.drawing && s.mounted && s.context.Some? ==> r.history == History.Push(s.history, s.buffer)
    ensures !(s.drawing && s.mounted && s.context.Some?) ==> r.history == s.history
  {
    if s.drawing then SaveHistory(s).(drawing := false) else s
  }

  /** The handle's `clear`: erase the whole buffer and commit a snapshot. */
  function Clear(s: Surface): (r: Surface)
    ensures s.mounted && s.context.Some? ==>
      && r.buffer == Cleared
      && r.history == History.Push(s.history, Cleared)
      && r.drawing == s.drawing && r.context == s.context
    ensures !(s.mounted && s.context.Some?) ==> r == s
  {
    if s.mounted && s.context.Some? then SaveHistory(s.(buffer := Cleared)) else s
  }

  /** The handle's `undo`: with more than one snapshot, drop the top and restore the new top. */
  function Undo(s: Surface): (r: Surface)
    ensures s.mounted && s.context.Some? && |s.history| > 1 ==>
      && r.history == s.history[..|s.history| - 1]
      && r.buffer == s.history[|s.history| - 2]
      && r.drawing == s.drawing && r.context == s.context
    ensures !(s.mounted && s.context.Some? && |s.history| > 1) ==> r == s
  {
    if s.mounted && s.context.Some? && |s.history| > 1 then
      var h := History.Pop(s.history);
      s.(history := h, buffer := h[|h| - 1])
    else s
  }

  /**
    The handle's `getDataUrl`: the empty string without a canvas, otherwise the
    export of the live buffer. It yields no new surface, so it changes nothing.
   */
  function GetDataUrl(s: Surface, exportPng: Exporter): (r: string)
    ensures !s.mounted ==> r == ""
    ensures s.mounted ==> r == exportPng(s.buffer)
  {
    if s.mounted then exportPng(s.buffer) else ""
  }

  /**
    Everything that can happen to a mounted surface: its event handlers and its handle's
    mutators. Pointer inputs carry the canvas's bounding rectangle as read at that event,
    so the canvas may move between events.
   */
  datatype Input =
    | PointerDown(down: PointerEvent, at: Rect)   // onMouseDown, onTouchStart
    | PointerMove(move: PointerEvent, at: Rect)   // onMouseMove, onTouchMove
    | PointerEnd                        // onMouseUp, onMouseLeave, onTouchEnd
    | SelectTool(tool: Tool)            // a new `tool` prop
    | ClearCanvas
    | UndoStroke

  function Step(s: Surface, i: Input, render: Renderer): Surface
  {
    match i
    case PointerDown(ev, rect) => StartDrawing(s, ev, rect)
    case PointerMove(ev, rect) => Draw(s, ev, rect, render)
    case PointerEnd => FinishDrawing(s)
    case SelectTool(t) => ApplyTool(s, t)
    case ClearCanvas => Clear(s)
    case UndoStroke => Undo(s)
  }

  function Run(s: Surface, inputs: seq<Input>, render: Renderer): Surface
    decreases |inputs|
  {
    if |inputs| == 0 then s else Run(Step(s, inputs[0], render), inputs[1..], render)
  }

  /**
    Mounting yields a valid surface; when the canvas has a size and a context it
    holds exactly one snapshot, the blank buffer, and a round-capped, round-joined
    context styled for the selected tool.
   */
  lemma MountIsValid(rect: Rect, contextAvailable: bool, t: Tool)
    ensures Valid(Mount(rect, contextAvailable, t))
    ensures rect.width == 0 || rect.height == 0 || !contextAvailable ==> Mount(rect, contextAvailable, t).context.None?
    ensures rect.width != 0 && rect.height != 0 && contextAvailable ==>
      var s := Mount(rect, contextAvailable, t);
      && s.history == [Cleared] && s.buffer == Cleared && !s.drawing
      && s.context.Some?
      && (s.context.value.style.composite, s.context.value.style.lineWidth) == ToolSetting(t)
      && s.context.value.style.lineCap == RoundCap && s.context.value.style.lineJoin == RoundJoin
  {
  }

  /** Every handler and handle operation preserves the history invariant. */
  lemma StepPreservesValid(s: Surface, i: Input, render: Renderer)
    requires Valid(s)
    ensures Valid(Step(s, i, render))
  {
  }

  /** Hence every reachable surface satisfies it: the history never empties or exceeds 30. */
  lemma {:induction false} RunPreservesValid(s: Surface, inputs: seq<Input>, render: Renderer)
    requires Valid(s)
    ensures Valid(Run(s, inputs, render))
    ensures s.context.Some? ==> 1 <= |Run(s, inputs, render).history| <= History.MaxEntries
    decreases |inputs|
  {
    if |inputs| > 0 {
      StepPreservesValid(s, inputs[0], render);
      RunPreservesValid(Step(s, inputs[0], render), inputs[1..], render);
    }
  }

  /** The moves of one stroke, applied in order. */
  function DrawAll(s: Surface, moves: seq<PointerEvent>, rect: Rect, render: Renderer): Surface
    decreases |moves|
  {
    if |moves| == 0 then s else DrawAll(Draw(s, moves[0], rect, render), moves[1..], rect, render)
  }

  /** One complete gesture: pointer-down, any number of moves, pointer-up. */
  function Stroke(s: Surface, down: PointerEvent, moves: seq<PointerEvent>, rect: Rect, render: Renderer): Surface
  {
    FinishDrawing(DrawAll(StartDrawing(s, down, rect), moves, rect, render))
  }

  /** Moves never touch the history, the gate or the context's presence. */
  lemma {:induction false} DrawAllKeepsHistory(s: Surface, moves: seq<PointerEvent>, rect: Rect, render: Renderer)
    ensures var r := DrawAll(s, moves, rect, render);
      r.history == s.history && r.drawing == s.drawing && r.mounted == s.mounted
      && r.context.Some? == s.context.Some?
    decreases |moves|
  {
    if |moves| > 0 {
      DrawAllKeepsHistory(Draw(s, moves[0], rect, render), moves[1..], rect, render);
    }
  }

  /**
    A completed gesture on an initialised surface commits exactly one snapshot, the
    buffer as the gesture left it, and leaves the gate idle; this holds for a tap
    with no move too, whose snapshot duplicates the previous top.
   */
  lemma StrokeCommitsOnce(s: Surface, down: PointerEvent, moves: seq<PointerEvent>, rect: Rect, render: Renderer)
    requires Valid(s) && s.context.Some?
    ensures var r := Stroke(s, down, moves, rect, render);
      && !r.drawing && Valid(r) && r.context.Some?
      && r.history == History.Push(s.history, r.buffer)
      && (moves == [] ==> r.buffer == s.buffer)
  {
    DrawAllKeepsHistory(StartDrawing(s, down, rect), moves, rect, render);
  }

  /** A gesture as the handlers receive it: the pointer-down event and the moves that follow. */
  datatype Gesture = Gesture(down: PointerEvent, moves: seq<PointerEvent>)

  /** Completed gestures, one after another. */
  function Strokes(s: Surface, gs: seq<Gesture>, rect: Rect, render: Renderer): Surface
    decreases |gs|
  {
    if |gs| == 0 then s
    else Strokes(Stroke(s, gs[0].down, gs[0].moves, rect, render), gs[1..], rect, render)
  }

  /** The buffer each gesture leaves behind, in order: what each pointer-up commits. */
  function Finals(s: Surface, gs: seq<Gesture>, rect: Rect, render: Renderer): (r: seq<Buffer>)
    ensures |r| == |gs|
    decreases |gs|
  {
    if |gs| == 0 then []
    else
      var s1 := Stroke(s, gs[0].down, gs[0].moves, rect, render);
      [s1.buffer] + Finals(s1, gs[1..], rect, render)
  }

  /**
    After any sequence of completed gestures the history is exactly the last 30 of
    the old history followed by the buffers the gestures committed.
   */
  lemma {:induction false} StrokesKeepMostRecent(s: Surface, gs: seq<Gesture>, rect: Rect, render: Renderer)
    requires Valid(s) && s.context.Some?
    ensures var r := Strokes(s, gs, rect, render);
      && Valid(r) && r.context.Some? && (|gs| > 0 ==> !r.drawing)
      && r.history == History.LastN(s.history + Finals(s, gs, rect, render), History.MaxEntries)
    decreases |gs|
  {
    if |gs| == 0 {
      assert s.history + Finals(s, gs, rect, render) == s.history;
    } else {
      var s1 := Stroke(s, gs[0].down, gs[0].moves, rect, render);
      StrokeCommitsOnce(s, gs[0].down, gs[0].moves, rect, render);
      StrokesUnfold(s, gs, rect, render);
      StrokesKeepMostRecent(s1, gs[1..], rect, render);
      History.PushThenLastN(s.history, s1.buffer, Finals(s1, gs[1..], rect, render));
    }
  }

  /** One step of `Strokes` and `Finals`: the first gesture, then the rest from where it left off. */
  lemma StrokesUnfold(s: Surface, gs: seq<Gesture>, rect: Rect, render: Renderer)
    requires |gs| > 0
    ensures var s1 := Stroke(s, gs[0].down, gs[0].moves, rect, render);
      && Strokes(s, gs, rect, render) == Strokes(s1, gs[1..], rect, render)
      && Finals(s, gs, rect, render) == [s1.buffer] + Finals(s1, gs[1..], rect, render)
  {
  }

  /**
    After N >= 30 completed gestures the history holds exactly 30 snapshots, those of
    gestures N-29 to N.
   */
  lemma HistoryBoundAfterStrokes(s: Surface, gs: seq<Gesture>, rect: Rect, render: Renderer)
    requires Valid(s) && s.context.Some?
    requires |gs| >= History.MaxEntries
    ensures |Strokes(s, gs, rect, render).history| == History.MaxEntries
    ensures Strokes(s, gs, rect, render).history == Finals(s, gs, rect, render)[|gs| - History.MaxEntries..]
  {
    StrokesKeepMostRecent(s, gs, rect, render);
    History.LastNOfLong(s.history, Finals(s, gs, rect, render), |gs|);
  }

  /**
    After N >= 30 completed gestures, 29 undos bring back the buffer gesture N-29
    left, not the first gesture's: the undo floor is the oldest retained snapshot.
   */
  lemma UndoAfterStrokes(s: Surface, gs: seq<Gesture>, rect: Rect, render: Renderer)
    requires Valid(s) && s.context.Some?
    requires |gs| >= History.MaxEntries
    ensures UndoN(Strokes(s, gs, rect, render), History.MaxEntries - 1).buffer
         == Finals(s, gs, rect, render)[|gs| - History.MaxEntries]
  {
    var f := Finals(s, gs, rect, render);
    StrokesKeepMostRecent(s, gs, rect, render);
    HistoryBoundAfterStrokes(s, gs, rect, render);
    assert |f| == |gs|;
    UndoToOldestRetained(Strokes(s, gs, rect, render), f);
  }

  /** With a full history drawn from the tail of `f`, 29 undos reach the oldest retained snapshot. */
  lemma UndoToOldestRetained(r: Surface, f: seq<Buffer>)
    requires Valid(r) && r.context.Some? && !r.drawing
    requires |f| >= History.MaxEntries && r.history == f[|f| - History.MaxEntries..]
    ensures UndoN(r, History.MaxEntries - 1).buffer == f[|f| - History.MaxEntries]
  {
    UndoRepeated(r, History.MaxEntries - 1);
  }

  /** Ending a gesture while idle changes nothing, and a move while idle draws nothing. */
  lemma IdleInputsAreInert(s: Surface, ev: PointerEvent, rect: Rect, render: Renderer)
    requires !s.drawing
    ensures FinishDrawing(s) == s
    ensures Draw(s, ev, rect, render) == s
  {
  }

  /** Clearing twice leaves the same buffer as clearing once and commits two snapshots. */
  lemma ClearTwice(s: Surface)
    requires Valid(s) && s.context.Some?
    ensures Clear(Clear(s)).buffer == Clear(s).buffer == Cleared
    ensures Clear(Clear(s)).history == History.Push(History.Push(s.history, Cleared), Cleared)
    ensures |s.history| + 2 <= History.MaxEntries ==> |Clear(Clear(s)).history| == |s.history| + 2
  {
  }

  /** Only the last tool selected matters, and selecting one never touches the pixels. */
  lemma LastToolWins(s: Surface, a: Tool, b: Tool, exportPng: Exporter)
    ensures ApplyTool(ApplyTool(s, a), b) == ApplyTool(s, b)
    ensures GetDataUrl(ApplyTool(s, a), exportPng) == GetDataUrl(s, exportPng)
  {
  }

  /** Undo `k` times. */
  function UndoN(s: Surface, k: nat): Surface
    decreases k
  {
    if k == 0 then s else UndoN(Undo(s), k - 1)
  }

  /** Undoing `k` times pops the history `k` times and shows its new top. */
  lemma {:induction false} UndoNPops(s: Surface, k: nat)
    requires Valid(s) && s.context.Some? && !s.drawing
    ensures var h := History.PopN(s.history, k);
      |h| >= 1 && UndoN(s, k) == s.(history := h, buffer := h[|h| - 1])
    decreases k
  {
    History.PopNFloor(s.history, k);
    if k > 0 {
      UndoNPops(Undo(s), k - 1);
    }
  }

  /**
    Undoing `k` times from an idle initialised surface removes min(k, |history| - 1)
    snapshots and restores the buffer to the new top: after 29 undos on a full history
    the buffer is the oldest retained snapshot, and further undos do nothing.
   */
  lemma UndoRepeated(s: Surface, k: nat)
    requires Valid(s) && s.context.Some? && !s.drawing
    ensures var r := UndoN(s, k);
      var keep := if k >= |s.history| - 1 then 1 else |s.history| - k;
      && Valid(r) && r.context == s.context && !r.drawing
      && r.history == s.history[..keep]
      && r.buffer == s.history[keep - 1]
  {
    UndoNPops(s, k);
    History.PopNFloor(s.history, k);
  }

  /**
    Without a context no input ever creates one, so a surface whose setup found a
    zero size (or no context) never gets a history.
   */
  lemma {:induction false} NoContextStaysUninitialised(s: Surface, inputs: seq<Input>, render: Renderer)
    requires Valid(s) && s.context.None?
    ensures Run(s, inputs, render).context.None?
    ensures Run(s, inputs, render).history == []
    decreases |inputs|
  {
    if |inputs| > 0 {
      StepPreservesValid(s, inputs[0], render);
      NoContextStaysUninitialised(Step(s, inputs[0], render), inputs[1..], render);
    }
  }

  /** A surface mounted at zero width or height stays without a context and history. */
  lemma ZeroSizeMountNeverInitialised(rect: Rect, contextAvailable: bool, t: Tool, inputs: seq<Input>, render: Renderer)
    requires rect.width == 0 || rect.height == 0
    ensures Run(Mount(rect, contextAvailable, t), inputs, render).history == []
    ensures Run(Mount(rect, contextAvailable, t), inputs, render).context.None?
  {
    MountIsValid(rect, contextAvailable, t);
    NoContextStaysUninitialised(Mount(rect, contextAvailable, t), inputs, render);
  }

  /** The undo floor: once one snapshot remains, undo changes nothing. */
  lemma UndoFloor(s: Surface, k: nat)
    requires Valid(s) && s.context.Some? && !s.drawing
    requires k >= |s.history| - 1
    ensures |UndoN(s, k).history| == 1
    ensures Undo(UndoN(s, k)) == UndoN(s, k)
    ensures UndoN(s, k).buffer == s.history[0]
  {
    UndoRepeated(s, k);
  }

  /**
    Coordinates depend only on the pointer's offset from the rectangle: moving both
    by the same amount gives the same point, and the rectangle's corner maps to the origin.
   */
  lemma CoordinatesAreRelative(p: ClientPoint, box: Rect, dx: int, dy: int)
    ensures GetCoordinates(Mouse(p), Some(box))
         == GetCoordinates(Mouse(ClientPoint(p.clientX + dx, p.clientY + dy)), Some(box.(left := box.left + dx, top := box.top + dy)))
    ensures GetCoordinates(Mouse(ClientPoint(box.left, box.top)), Some(box)) == Point(0, 0)
    ensures GetCoordinates(Touch([p], []), Some(box)) == GetCoordinates(Touch([], [p]), Some(box)) == GetCoordinates(Mouse(p), Some(box))
  {
  }

  /**
    Export reads nothing but the buffer: surfaces with equal pixels export equally,
    whatever their histories, tools or gates.
   */
  lemma ExportReadsOnlyBuffer(s: Surface, t: Surface, exportPng: Exporter)
    requires s.mounted == t.mounted && s.buffer == t.buffer
    ensures GetDataUrl(s, exportPng) == GetDataUrl(t, exportPng)
  {
  }
}
