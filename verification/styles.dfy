/** How optional style and selection arguments cross the native boundary:
    `toFfiStyle` fills every absent field with 0 (the terminal default) and
    `List.setSelected` / `Table.setSelected` send `-1` for "no selection". */
module Styles {
  import opened Wrappers

  /** A caller-side style: each of `fg`, `bg`, `mods` may be left out. */
  datatype Style = Style(fg: Option<int>, bg: Option<int>, mods: Option<int>)

  /** The fixed-layout record the native library receives. */
  datatype FfiStyle = FfiStyle(fg: int, bg: int, mods: int)

  const DEFAULT: int := 0

  /** `toFfiStyle(s)`: a missing style, or a missing field of a present style,
      is sent as 0; a present field is sent unchanged. */
  function ToFfiStyle(s: Option<Style>): (r: FfiStyle)
    ensures s.Some? && s.value.fg.Some? ==> r.fg == s.value.fg.value
    ensures s.Some? && s.value.bg.Some? ==> r.bg == s.value.bg.value
    ensures s.Some? && s.value.mods.Some? ==> r.mods == s.value.mods.value
    ensures (s.None? || s.value.fg.None?) ==> r.fg == DEFAULT
    ensures (s.None? || s.value.bg.None?) ==> r.bg == DEFAULT
    ensures (s.None? || s.value.mods.None?) ==> r.mods == DEFAULT
  {
    match s
    case None => FfiStyle(DEFAULT, DEFAULT, DEFAULT)
    case Some(st) => FfiStyle(st.fg.GetOr(DEFAULT), st.bg.GetOr(DEFAULT), st.mods.GetOr(DEFAULT))
  }

  /** A field with its explicit 0 forgotten: what the native side can tell apart. */
  function Forget0(f: Option<int>): Option<int>
  {
    if f == Some(DEFAULT) then None else f
  }

  function Canonical(s: Option<Style>): Style
  {
    match s
    case None => Style(None, None, None)
    case Some(st) => Style(Forget0(st.fg), Forget0(st.bg), Forget0(st.mods))
  }

  /** Two caller styles reach the native library as the same record exactly
      when they agree once explicit zeros are identified with absent fields:
      absence and an explicit 0 are indistinguishable, nothing else collides. */
  lemma ToFfiStyleInjectiveUpToDefault(a: Option<Style>, b: Option<Style>)
    ensures ToFfiStyle(a) == ToFfiStyle(b) <==> Canonical(a) == Canonical(b)
  {
  }

  /** The native record decoded back into a style with absent fields for 0. */
  function FromFfiStyle(f: FfiStyle): Style
  {
    Style(Forget0(Some(f.fg)), Forget0(Some(f.bg)), Forget0(Some(f.mods)))
  }

  /** Decoding recovers every style whose present fields are non-zero. */
  lemma FromToFfiStyle(s: Style)
    requires s.fg != Some(DEFAULT) && s.bg != Some(DEFAULT) && s.mods != Some(DEFAULT)
    ensures FromFfiStyle(ToFfiStyle(Some(s))) == s
  {
  }

  /** The sentinel `setSelected` sends when the index is `null`/`undefined`. */
  const NO_SELECTION: int := -1

  /** `index == null ? -1 : index`. */
  function EncodeSelection(index: Option<int>): (r: int)
    ensures index.None? ==> r == NO_SELECTION
    ensures index.Some? ==> r == index.value
  {
    match index
    case None => NO_SELECTION
    case Some(i) => i
  }

  /** How the native side reads the sentinel back. */
  function DecodeSelection(v: int): Option<int>
  {
    if v == NO_SELECTION then None else Some(v)
  }

  /** The sentinel round-trips for every selection except an explicit `-1`,
      which the encoding cannot tell apart from `null`. */
  lemma SelectionRoundTrip(index: Option<int>)
    ensures DecodeSelection(EncodeSelection(index)) == index <==> index != Some(NO_SELECTION)
  {
  }
}
