/** `Terminal.nextEvent`: the flat event record the native library fills in,
    and its decoding into the tagged union the caller receives. */
module Events {
  import opened Wrappers

  const KIND_NONE: nat := 0
  const KIND_KEY: nat := 1
  const KIND_RESIZE: nat := 2
  const KIND_MOUSE: nat := 3

  datatype RawKey = RawKey(code: nat, ch: nat, mods: nat)

  /** The `FfiEvent` record: a kind tag and the fields of every kind side by side. */
  datatype RawEvent = RawEvent(
    kind: nat, key: RawKey, width: nat, height: nat,
    mouseX: nat, mouseY: nat, mouseKind: nat, mouseBtn: nat, mouseMods: nat)

  /** The event union handed to the caller. */
  datatype Event =
    | KeyEvent(code: nat, ch: nat, mods: nat)
    | ResizeEvent(width: nat, height: nat)
    | MouseEvent(x: nat, y: nat, mouseKind: nat, button: nat, mouseMods: nat)
    | NoneEvent

  /** `nextEvent`: `ok` is the native call's result, `raw` the record it filled. */
  function NextEvent(ok: bool, raw: RawEvent): (r: Option<Event>)
    ensures r.None? <==> !ok
    ensures ok && raw.kind == KIND_KEY ==> r == Some(KeyEvent(raw.key.code, raw.key.ch, raw.key.mods))
    ensures ok && raw.kind == KIND_RESIZE ==> r == Some(ResizeEvent(raw.width, raw.height))
    ensures ok && raw.kind == KIND_MOUSE ==>
              r == Some(MouseEvent(raw.mouseX, raw.mouseY, raw.mouseKind, raw.mouseBtn, raw.mouseMods))
    ensures ok ==> (r == Some(NoneEvent) <==> raw.kind !in {KIND_KEY, KIND_RESIZE, KIND_MOUSE})
  {
    if !ok then None
    else if raw.kind == KIND_KEY then Some(KeyEvent(raw.key.code, raw.key.ch, raw.key.mods))
    else if raw.kind == KIND_RESIZE then Some(ResizeEvent(raw.width, raw.height))
    else if raw.kind == KIND_MOUSE then
      Some(MouseEvent(raw.mouseX, raw.mouseY, raw.mouseKind, raw.mouseBtn, raw.mouseMods))
    else Some(NoneEvent)
  }

  /** The tag an event carries. */
  function KindOf(e: Event): nat
  {
    match e
    case KeyEvent(_, _, _) => KIND_KEY
    case ResizeEvent(_, _) => KIND_RESIZE
    case MouseEvent(_, _, _, _, _) => KIND_MOUSE
    case NoneEvent => KIND_NONE
  }

  /** A record the native side could fill for `e`, with zeros in the fields
      that belong to other kinds. */
  function Encode(e: Event): (raw: RawEvent)
    ensures raw.kind == KindOf(e)
  {
    var z := RawEvent(KindOf(e), RawKey(0, 0, 0), 0, 0, 0, 0, 0, 0, 0);
    match e
    case KeyEvent(code, ch, mods) => z.(key := RawKey(code, ch, mods))
    case ResizeEvent(w, h) => z.(width := w, height := h)
    case MouseEvent(x, y, k, b, m) => z.(mouseX := x, mouseY := y, mouseKind := k, mouseBtn := b, mouseMods := m)
    case NoneEvent => z
  }

  /** Decoding inverts encoding for every event. */
  lemma DecodeEncode(e: Event)
    ensures NextEvent(true, Encode(e)) == Some(e)
  {
  }

  /** Decoding reads only the fields of the record's own kind: records that
      agree on those decode alike, whatever the other fields hold. */
  lemma DecodeReadsOwnFields(a: RawEvent, b: RawEvent)
    requires a.kind == b.kind
    requires a.kind == KIND_KEY ==> a.key == b.key
    requires a.kind == KIND_RESIZE ==> a.width == b.width && a.height == b.height
    requires a.kind == KIND_MOUSE ==>
               a.mouseX == b.mouseX && a.mouseY == b.mouseY && a.mouseKind == b.mouseKind
               && a.mouseBtn == b.mouseBtn && a.mouseMods == b.mouseMods
    ensures NextEvent(true, a) == NextEvent(true, b)
  {
  }

  /** A decoded event's tag is the record's tag when that tag is known and
      `None` otherwise. */
  lemma DecodedKind(raw: RawEvent)
    ensures KindOf(NextEvent(true, raw).value)
            == (if raw.kind in {KIND_KEY, KIND_RESIZE, KIND_MOUSE} then raw.kind else KIND_NONE)
  {
  }
}
