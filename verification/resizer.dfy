/**
 The dimension resolver of the image resizer's main component: the state it
 keeps for the loaded image and the target size, the user events that change
 it, and the follow-up effect that re-derives the height after an event.

 Each event first runs its handler, which writes new state values; then the
 aspect-ratio effect runs once, if one of the values it depends on (the
 lock, the width, the ratio) now differs from before the event, and may
 overwrite the height the handler wrote. `Step` is the two in sequence.

 Ratios are exact rationals and `Math.round` is `Rounding.RoundDiv`; the
 program uses doubles, which can differ from this by one at half-way ties
 and for quotients from about 10^12 up, and by more above 2^53.
 */
module Resizer {
  import opened Rounding
  import opened IntParsing
  import opened Presets

  /** A rational num / den; the original aspect ratio is w0 / h0. */
  datatype Ratio = Ratio(num: nat, den: PosInt)

  /** Two ratios denote the same number. */
  predicate SameValue(a: Ratio, b: Ratio) {
    a.num * b.den == b.num * a.den
  }

  datatype State = State(
    originalWidth: nat,
    originalHeight: nat,
    aspect: Ratio,
    width: nat,
    height: nat,
    lock: bool)

  /** Before any image: every number 0, the lock on. */
  const Initial: State := State(0, 0, Ratio(0, 1), 0, 0, true)

  /** An image has been decoded; its ratio is stored as w0 / h0. */
  predicate Loaded(s: State) {
    && s.originalWidth > 0
    && s.originalHeight > 0
    && s.aspect == Ratio(s.originalWidth, s.originalHeight)
  }

  datatype Event =
    | ImageDecoded(w: PosInt, h: PosInt)
    | WidthEdited(value: Parsed)
    | HeightEdited(value: Parsed)
    | PresetSelected(name: string)
    | LockToggled

  /** The change events of the two number fields: the field's text is read
      with `parseInt` before the handler looks at it. */
  function WidthInput(text: string): Event {
    WidthEdited(ParseInt(text))
  }

  function HeightInput(text: string): Event {
    HeightEdited(ParseInt(text))
  }

  /** The resize controls are only shown once an image is loaded, so only
      the decode callback can fire before that. */
  predicate Enabled(s: State, e: Event) {
    e.ImageDecoded? || Loaded(s)
  }

  /** What the field handlers accept: a number that is not NaN and is > 0. */
  predicate IsPositive(p: Parsed) {
    p.Num? && p.value > 0
  }

  /** The decode callback: a new original size and ratio, target reset to it. */
  function OnImageDecoded(s: State, w: PosInt, h: PosInt): (r: State)
    ensures Loaded(r)
    ensures r.width == r.originalWidth == w && r.height == r.originalHeight == h
    ensures r.lock == s.lock
  {
    s.(originalWidth := w, originalHeight := h, width := w, height := h, aspect := Ratio(w, h))
  }

  /** The width field handler. */
  function OnWidthEdited(s: State, p: Parsed): (r: State)
    requires Loaded(s)
    ensures r.(width := s.width, height := s.height) == s
    ensures !IsPositive(p) ==> r == s
    ensures !s.lock ==> r.height == s.height
    ensures IsPositive(p) ==> r.width == p.value
  {
    if IsPositive(p) then
      var w: nat := p.value;
      if s.lock then s.(height := RoundDiv(w * s.aspect.den, s.aspect.num), width := w)
      else s.(width := w)
    else s
  }

  /** The height field handler. */
  function OnHeightEdited(s: State, p: Parsed): (r: State)
    requires Loaded(s)
    ensures r.(width := s.width, height := s.height) == s
    ensures !IsPositive(p) ==> r == s
    ensures !s.lock ==> r.width == s.width
    ensures IsPositive(p) ==> r.height == p.value
  {
    if IsPositive(p) then
      var h: nat := p.value;
      if s.lock then s.(width := RoundDiv(h * s.aspect.num, s.aspect.den), height := h)
      else s.(height := h)
    else s
  }

  /** The preset handler. With the lock on, a preset whose box is wider than
      the image (pw / ph > w0 / h0, compared by cross-multiplication) keeps
      the preset height; otherwise it keeps the preset width. */
  function OnPresetSelected(s: State, name: string): (r: State)
    requires Loaded(s)
    ensures r.(width := s.width, height := s.height) == s
  {
    match Find(Catalog(s.originalWidth, s.originalHeight), name)
    case None => s
    case Some(p) =>
      if p.name == OriginalName then
        s.(width := s.originalWidth, height := s.originalHeight)
      else if s.lock then
        if p.width * s.aspect.den > s.aspect.num * p.height then
          s.(height := p.height, width := RoundDiv(p.height * s.aspect.num, s.aspect.den))
        else
          s.(width := p.width, height := RoundDiv(p.width * s.aspect.den, s.aspect.num))
      else
        s.(width := p.width, height := p.height)
  }

  /** The lock checkbox flips the lock and nothing else. */
  function OnLockToggled(s: State): (r: State)
    ensures r.lock != s.lock && r.(lock := s.lock) == s
  {
    s.(lock := !s.lock)
  }

  /** The handler of an event, before the effect runs. */
  function Handle(s: State, e: Event): State
    requires Enabled(s, e)
  {
    match e
    case ImageDecoded(w, h) => OnImageDecoded(s, w, h)
    case WidthEdited(p) => OnWidthEdited(s, p)
    case HeightEdited(p) => OnHeightEdited(s, p)
    case PresetSelected(n) => OnPresetSelected(s, n)
    case LockToggled => OnLockToggled(s)
  }

  /** The effect's dependencies differ between two renders. */
  predicate DepsChanged(prev: State, next: State) {
    prev.lock != next.lock || prev.width != next.width || !SameValue(prev.aspect, next.aspect)
  }

  /** The target height is within half a pixel of width * h0 / w0. */
  predicate HeightFollowsWidth(s: State) {
    var d: int := s.originalWidth * s.height - s.width * s.originalHeight;
    -(s.originalWidth as int) < 2 * d <= s.originalWidth
  }

  /** The target width is within half a pixel of height * w0 / h0. */
  predicate WidthFollowsHeight(s: State) {
    var d: int := s.originalHeight * s.width - s.height * s.originalWidth;
    -(s.originalHeight as int) < 2 * d <= s.originalHeight
  }

  /** The target keeps the original ratio up to rounding of one side. */
  predicate RatioKept(s: State) {
    HeightFollowsWidth(s) || WidthFollowsHeight(s)
  }

  /** The aspect-ratio effect, run after the handler wrote `next`: when one of
      its dependencies changed, the lock is on, and both the width and the
      ratio are positive, it sets the height to round(width / ratio). It only
      ever writes the height. */
  function Settle(prev: State, next: State): (r: State)
    ensures r.(height := next.height) == next
    ensures !DepsChanged(prev, next) || !next.lock || next.width == 0 ==> r == next
    ensures Loaded(next) && DepsChanged(prev, next) && next.lock && next.width > 0 ==>
              HeightFollowsWidth(r)
  {
    if DepsChanged(prev, next) && next.lock && next.width > 0 && next.aspect.num > 0 then
      var h := RoundDiv(next.width * next.aspect.den, next.aspect.num);
      var r := next.(height := h);
      assert Loaded(next) ==> HeightFollowsWidth(r) by {
        if Loaded(next) {
          assert next.width * next.aspect.den == next.width * next.originalHeight;
        }
      }
      r
    else next
  }

  /** One user event: the handler, then the effect. An event whose control is
      not on screen changes nothing. */
  function Step(s: State, e: Event): State {
    if Enabled(s, e) then Settle(s, Handle(s, e)) else s
  }

  /** A sequence of events, in order. */
  function Run(s: State, es: seq<Event>): State
    decreases |es|
  {
    if |es| == 0 then s else Run(Step(s, es[0]), es[1..])
  }
}
