/**
 Properties of the dimension resolver: what each event leaves in the state,
 both as the handler writes it and after the aspect-ratio effect, and the
 ratio invariant every reachable state keeps while the lock is on.
 */
module ResizerProperties {
  import opened Rounding
  import opened IntParsing
  import opened Presets
  import opened Resizer

  // ---------------------------------------------------------------------
  // Decoding an image

  /** After a decode the target is the original size and the ratio is
      w0 / h0, from any state; with the lock on the effect recomputes
      round(w0 * h0 / w0) = h0, so the height survives it. */
  lemma DecodeResetsTarget(s: State, w: PosInt, h: PosInt)
    ensures var r := Step(s, ImageDecoded(w, h));
      && Loaded(r)
      && r.originalWidth == w && r.originalHeight == h
      && r.width == w && r.height == h
      && r.lock == s.lock
  {
    assert w * h == h * w;
    RoundDivExact(h, w);
  }

  // ---------------------------------------------------------------------
  // Width and height fields

  /** A field value that is NaN or <= 0 changes nothing. */
  lemma RejectedEditIgnored(s: State, p: Parsed)
    requires Loaded(s)
    requires !IsPositive(p)
    ensures Step(s, WidthEdited(p)) == s
    ensures Step(s, HeightEdited(p)) == s
  {
  }

  /** With the lock off a width edit sets the width and nothing else, and the
      effect does not run its body. */
  lemma UnlockedWidthEdit(s: State, n: nat)
    requires Loaded(s) && !s.lock && n > 0
    ensures Step(s, WidthEdited(Num(n))) == s.(width := n)
  {
  }

  /** With the lock off a height edit sets the height and nothing else. */
  lemma UnlockedHeightEdit(s: State, n: nat)
    requires Loaded(s) && !s.lock && n > 0
    ensures Step(s, HeightEdited(Num(n))) == s.(height := n)
  {
  }

  /** With the lock on a width edit derives the height by rounding, within
      half a pixel of the exact ratio, and the effect leaves that result as
      it is. */
  lemma LockedWidthEdit(s: State, n: nat)
    requires Loaded(s) && s.lock && n > 0
    ensures var m := Handle(s, WidthEdited(Num(n)));
      && m.width == n
      && m.height == RoundDiv(n * s.originalHeight, s.originalWidth)
      && HeightFollowsWidth(m)
      && Step(s, WidthEdited(Num(n))) == m
  {
    var m := s.(height := RoundDiv(n * s.originalHeight, s.originalWidth), width := n);
    assert Handle(s, WidthEdited(Num(n))) == m;
    RoundedHeightFollows(m);
    SettleSameImage(s, m);
  }

  /** With the lock on a height edit derives the width by rounding. When
      that width differs from the old one and is positive, the effect then
      replaces the typed height by round(width * h0 / w0). */
  lemma LockedHeightEdit(s: State, n: nat)
    requires Loaded(s) && s.lock && n > 0
    ensures var m := Handle(s, HeightEdited(Num(n)));
      var r := Step(s, HeightEdited(Num(n)));
      && m.height == n
      && m.width == RoundDiv(n * s.originalWidth, s.originalHeight)
      && WidthFollowsHeight(m)
      && r.width == m.width
      && r.height == (if m.width != s.width && m.width > 0
                      then RoundDiv(m.width * s.originalHeight, s.originalWidth)
                      else n)
  {
    var m := s.(width := RoundDiv(n * s.originalWidth, s.originalHeight), height := n);
    assert Handle(s, HeightEdited(Num(n))) == m;
    RoundedWidthFollows(m);
    SettleSameImage(s, m);
  }

  /** The effect after a handler that kept the image and the lock: it runs
      exactly when the lock is on and the handler changed the width to a
      positive one. */
  lemma SettleSameImage(s: State, m: State)
    requires Loaded(s)
    requires m.(width := s.width, height := s.height) == s
    ensures Settle(s, m) ==
      if s.lock && m.width != s.width && m.width > 0
      then m.(height := RoundDiv(m.width * s.originalHeight, s.originalWidth))
      else m
  {
    assert DepsChanged(s, m) <==> m.width != s.width;
  }

  // ---------------------------------------------------------------------
  // The lock checkbox

  /** Switching the lock off leaves the target as it is. */
  lemma LockSwitchedOff(s: State)
    requires Loaded(s) && s.lock
    ensures Step(s, LockToggled) == s.(lock := false)
  {
  }

  /** Switching the lock on re-derives the height from the current width
      (when that width is positive). */
  lemma LockSwitchedOn(s: State)
    requires Loaded(s) && !s.lock
    ensures var r := Step(s, LockToggled);
      && r.lock && r.width == s.width
      && r.height == (if s.width > 0 then RoundDiv(s.width * s.originalHeight, s.originalWidth)
                      else s.height)
      && (s.width > 0 ==> HeightFollowsWidth(r))
  {
  }

  // ---------------------------------------------------------------------
  // Presets

  /** "Original" restores the original size whatever the lock and the
      current target, both in the handler and after the effect. */
  lemma OriginalPresetRestores(s: State)
    requires Loaded(s)
    ensures Handle(s, PresetSelected(OriginalName)) == s.(width := s.originalWidth, height := s.originalHeight)
    ensures Step(s, PresetSelected(OriginalName)) == s.(width := s.originalWidth, height := s.originalHeight)
  {
    FindByOwnName(Catalog(s.originalWidth, s.originalHeight), 0);
    assert s.originalWidth * s.originalHeight == s.originalHeight * s.originalWidth;
    RoundDivExact(s.originalHeight, s.originalWidth);
  }

  /** A name outside the catalog, such as the empty value of the
      placeholder option, changes nothing. */
  lemma UnknownPresetIgnored(s: State, name: string)
    requires Loaded(s)
    requires forall p :: p in Catalog(s.originalWidth, s.originalHeight) ==> p.name != name
    ensures Step(s, PresetSelected(name)) == s
  {
  }

  lemma PlaceholderIgnored(s: State)
    requires Loaded(s)
    ensures Step(s, PresetSelected("")) == s
  {
    UnknownPresetIgnored(s, "");
  }

  /** With the lock off a preset sets exactly its own size. */
  lemma UnlockedPreset(s: State, i: nat)
    requires Loaded(s) && !s.lock
    requires 1 <= i < |Catalog(s.originalWidth, s.originalHeight)|
    ensures var p := Catalog(s.originalWidth, s.originalHeight)[i];
      Step(s, PresetSelected(p.name)) == s.(width := p.width, height := p.height)
  {
    FindByOwnName(Catalog(s.originalWidth, s.originalHeight), i);
  }

  /** With the lock on, the handler's size fits inside the preset box and
      matches it on one side: the height when the box is wider than the
      image, the width otherwise; the other side is derived by rounding.
      This is what the handler writes, not the settled size: when the width
      changes, the effect re-derives the height from it, which can leave the
      box (`PresetSettlesDifferentlyTwice`: 129 x 301 for a 400 x 300 box). */
  lemma LockedPresetFits(s: State, i: nat)
    requires Loaded(s) && s.lock
    requires 1 <= i < |Catalog(s.originalWidth, s.originalHeight)|
    ensures var p := Catalog(s.originalWidth, s.originalHeight)[i];
      var m := Handle(s, PresetSelected(p.name));
      var (w0, h0) := (s.originalWidth, s.originalHeight);
      && m.width <= p.width && m.height <= p.height
      && (p.width * h0 > w0 * p.height ==>
            m.height == p.height && m.width == RoundDiv(p.height * w0, h0) && WidthFollowsHeight(m))
      && (p.width * h0 <= w0 * p.height ==>
            m.width == p.width && m.height == RoundDiv(p.width * h0, w0) && HeightFollowsWidth(m))
  {
    var c := Catalog(s.originalWidth, s.originalHeight);
    var p := c[i];
    var (w0, h0) := (s.originalWidth, s.originalHeight);
    FindByOwnName(c, i);
    FitArithmetic(w0, h0, p.width, p.height);
    var m := Handle(s, PresetSelected(p.name));
    if p.width * h0 > w0 * p.height {
      assert m == s.(height := p.height, width := RoundDiv(p.height * w0, h0));
      RoundedWidthFollows(m);
    } else {
      assert m == s.(width := p.width, height := RoundDiv(p.width * h0, w0));
      RoundedHeightFollows(m);
    }
  }

  /** Rounding the derived side never overshoots the preset box. */
  lemma FitArithmetic(w0: PosInt, h0: PosInt, pw: nat, ph: nat)
    ensures pw * h0 > w0 * ph ==> RoundDiv(ph * w0, h0) <= pw
    ensures pw * h0 <= w0 * ph ==> RoundDiv(pw * h0, w0) <= ph
  {
    if pw * h0 > w0 * ph {
      assert ph * w0 <= pw * h0;
      RoundDivAtMost(ph * w0, h0, pw);
    } else {
      assert pw * h0 <= ph * w0;
      RoundDivAtMost(pw * h0, w0, ph);
    }
  }

  /** The size the preset handler writes depends on the preset, the original
      size and the lock only, not on the current target. */
  lemma PresetIgnoresTarget(s: State, t: State, name: string)
    requires Loaded(s) && Loaded(t)
    requires s.originalWidth == t.originalWidth && s.originalHeight == t.originalHeight
    requires s.lock == t.lock
    requires Find(Catalog(s.originalWidth, s.originalHeight), name).Some?
    ensures Handle(s, PresetSelected(name)).width == Handle(t, PresetSelected(name)).width
    ensures Handle(s, PresetSelected(name)).height == Handle(t, PresetSelected(name)).height
  {
  }

  /** Selecting the same preset again makes the handler write the same size
      again, whatever the effect did in between. In the app another option
      has to be chosen first (the drop-down reports only a changed choice);
      the placeholder does that without changing the state. */
  lemma PresetHandlerRepeats(s: State, name: string)
    requires Loaded(s)
    requires Find(Catalog(s.originalWidth, s.originalHeight), name).Some?
    ensures var s' := Step(s, PresetSelected(name));
      && Handle(s', PresetSelected(name)).width == Handle(s, PresetSelected(name)).width
      && Handle(s', PresetSelected(name)).height == Handle(s, PresetSelected(name)).height
  {
    var s' := Step(s, PresetSelected(name));
    assert Loaded(s') && s'.lock == s.lock;
    PresetIgnoresTarget(s', s, name);
  }

  /** The settled size is not idempotent: for a 3 x 7 image with the lock on,
      "Thumbnail" (400 x 300, a wider box) first settles at 129 x 301,
      because the effect re-derives the height from the new width. The
      drop-down only fires when its choice changes, so choosing "Thumbnail"
      again goes through another option, here the placeholder, which changes
      nothing. The second "Thumbnail" then settles at 129 x 300, because the
      width no longer changes and the effect stays idle; from there on the
      same round trip is stable. */
  lemma PresetSettlesDifferentlyTwice()
    ensures var s0 := Step(Initial, ImageDecoded(3, 7));
      var s1 := Step(s0, PresetSelected("Thumbnail"));
      var s1' := Step(s1, PresetSelected(""));
      var s2 := Step(s1', PresetSelected("Thumbnail"));
      && s1.width == 129 && s1.height == 301
      && s1' == s1
      && s2.width == 129 && s2.height == 300
      && Step(Step(s2, PresetSelected("")), PresetSelected("Thumbnail")) == s2
  {
  }

  // ---------------------------------------------------------------------
  // The effect and the frame of every event

  /** Whenever the effect's dependencies changed and the lock is on with a
      positive width, the settled height is round(width * h0 / w0), and
      the effect touches nothing but the height. */
  lemma SettleDerivesHeight(prev: State, next: State)
    requires Loaded(next)
    requires DepsChanged(prev, next) && next.lock && next.width > 0
    ensures Settle(prev, next) == next.(height := RoundDiv(next.width * next.originalHeight, next.originalWidth))
  {
  }

  /** No event other than a decode touches the original size or the ratio,
      and before the first decode every other event is ignored. */
  lemma OnlyDecodeChangesImage(s: State, e: Event)
    requires !e.ImageDecoded?
    ensures Step(s, e).originalWidth == s.originalWidth
    ensures Step(s, e).originalHeight == s.originalHeight
    ensures Step(s, e).aspect == s.aspect
    ensures s == Initial ==> Step(s, e) == s
  {
  }

  // ---------------------------------------------------------------------
  // Worked scenarios

  /** A field holding the decimal text of n reads as n. */
  lemma ParsesDecimal(n: nat, text: string)
    requires text == ToDecimal(n)
    ensures ParseInt(text) == Num(n)
  {
    ParseIntDecimal(n, []);
    assert text + [] == text;
  }

  /** 1920 x 1080 with the lock on, width 960: 960 x 540. */
  lemma ScenarioLockedWidth()
    ensures var s := Step(Initial, ImageDecoded(1920, 1080));
      var r := Step(s, WidthInput("960"));
      r.width == 960 && r.height == 540
  {
    var s := Step(Initial, ImageDecoded(1920, 1080));
    DecodeResetsTarget(Initial, 1920, 1080);
    ParsesDecimal(960, "960");
    LockedWidthEdit(s, 960);
    RoundDivExact(540, 1920);
    assert 960 * 1080 == 540 * 1920;
  }

  /** 1000 x 500 with the lock on, "Instagram Square" (1080 x 1080, a box
      narrower than the image): 1080 x 540. */
  lemma ScenarioLockedPreset()
    ensures var s := Step(Initial, ImageDecoded(1000, 500));
      var r := Step(s, PresetSelected("Instagram Square"));
      r.width == 1080 && r.height == 540
  {
    DecodeResetsTarget(Initial, 1000, 500);
    FindByOwnName(Catalog(1000, 500), 4);
    assert 1080 * 500 <= 1000 * 1080;
    assert 1080 * 500 == 540 * 1000;
    RoundDivExact(540, 1000);
  }

  /** 800 x 600 with the lock off, width 400: 400 x 600. */
  lemma ScenarioUnlockedWidth()
    ensures var s := Step(Step(Initial, ImageDecoded(800, 600)), LockToggled);
      var r := Step(s, WidthInput("400"));
      r.width == 400 && r.height == 600
  {
    var s0 := Step(Initial, ImageDecoded(800, 600));
    DecodeResetsTarget(Initial, 800, 600);
    LockSwitchedOff(s0);
    ParsesDecimal(400, "400");
    UnlockedWidthEdit(Step(s0, LockToggled), 400);
  }

  /** 1 x 1000 with the lock on, height 1700: the handler writes width
      round(1.7) = 2 and height 1700, then the effect sees the width change
      and writes height round(2 * 1000) = 2000 over the typed value. */
  lemma ScenarioTypedHeightOverwritten()
    ensures var s := Step(Initial, ImageDecoded(1, 1000));
      var r := Step(s, HeightInput("1700"));
      && Handle(s, HeightInput("1700")).height == 1700
      && r.width == 2 && r.height == 2000
  {
    var s := Step(Initial, ImageDecoded(1, 1000));
    DecodeResetsTarget(Initial, 1, 1000);
    ParsesDecimal(1700, "1700");
    LockedHeightEdit(s, 1700);
    assert RoundDiv(1700, 1000) == 2;
    RoundDivExact(2000, 1);
  }

  // ---------------------------------------------------------------------
  // The ratio invariant

  /** What holds of every state the component can reach: no image yet, or an
      image whose ratio is kept, up to rounding of one side, whenever the
      lock is on and the width is positive. */
  ghost predicate Inv(s: State) {
    && (s == Initial || Loaded(s))
    && (s.lock && s.width > 0 ==> RatioKept(s))
  }

  lemma RoundedHeightFollows(s: State)
    requires Loaded(s)
    requires s.height == RoundDiv(s.width * s.originalHeight, s.originalWidth)
    ensures HeightFollowsWidth(s)
  {
  }

  lemma RoundedWidthFollows(s: State)
    requires Loaded(s)
    requires s.width == RoundDiv(s.height * s.originalWidth, s.originalHeight)
    ensures WidthFollowsHeight(s)
  {
  }

  lemma StepKeepsInv(s: State, e: Event)
    requires Inv(s)
    ensures Inv(Step(s, e))
  {
    if !Enabled(s, e) {
      return;
    }
    var m := Handle(s, e);
    var r := Step(s, e);
    assert r == Settle(s, m);
    match e
    case ImageDecoded(w, h) =>
      DecodeResetsTarget(s, w, h);
    case WidthEdited(p) =>
      if IsPositive(p) && s.lock {
        LockedWidthEdit(s, p.value);
      }
    case HeightEdited(p) =>
      if IsPositive(p) && s.lock {
        LockedHeightEdit(s, p.value);
        if r.height == p.value {
          RoundedWidthFollows(r);
        }
      }
    case PresetSelected(n) =>
      var c := Catalog(s.originalWidth, s.originalHeight);
      if Find(c, n).Some? {
        var k := FirstMatch(c, n);
        assert c[k].name == n;
        if k == 0 {
          OriginalPresetRestores(s);
        } else if s.lock {
          LockedPresetFits(s, k);
          FindByOwnName(c, k);
        }
      }
    case LockToggled =>
  }

  lemma {:induction false} RunKeepsInv(s: State, es: seq<Event>)
    requires Inv(s)
    ensures Inv(Run(s, es))
    decreases |es|
  {
    if |es| > 0 {
      StepKeepsInv(s, es[0]);
      RunKeepsInv(Step(s, es[0]), es[1..]);
    }
  }

  /** Whatever the user does, while the lock is on and the width positive,
      width / height stays w0 / h0 up to rounding of one side. */
  lemma ReachableKeepsRatio(es: seq<Event>)
    ensures var r := Run(Initial, es);
      r.lock && r.width > 0 ==> Loaded(r) && RatioKept(r)
  {
    RunKeepsInv(Initial, es);
  }

  /** The width can reach 0, and then switching the lock on does not
      restore the ratio: a 1 x 1000 image, height 1 with the lock on
      (width round(1 / 1000) = 0), lock off, height 5000, lock on. */
  lemma ZeroWidthBreaksRatio()
    ensures var r := Run(Initial, [ImageDecoded(1, 1000), HeightEdited(Num(1)), LockToggled,
                                   HeightEdited(Num(5000)), LockToggled]);
      && r.lock && r.width == 0 && r.height == 5000
      && !RatioKept(r)
  {
    var es := [ImageDecoded(1, 1000), HeightEdited(Num(1)), LockToggled, HeightEdited(Num(5000)), LockToggled];
    var s1 := Step(Initial, es[0]);
    DecodeResetsTarget(Initial, 1, 1000);
    var s2 := Step(s1, es[1]);
    LockedHeightEdit(s1, 1);
    assert RoundDiv(1, 1000) == 0;
    var s3 := Step(s2, es[2]);
    LockSwitchedOff(s2);
    var s4 := Step(s3, es[3]);
    UnlockedHeightEdit(s3, 5000);
    var s5 := Step(s4, es[4]);
    LockSwitchedOn(s4);
    assert s5 == State(1, 1000, Ratio(1, 1000), 0, 5000, true);
    calc {
      Run(Initial, es);
      Run(s1, es[1..]);
      Run(s2, es[2..]);
      { assert es[2..][1..] == es[3..]; }
      Run(s3, es[3..]);
      { assert es[3..][1..] == es[4..]; }
      Run(s4, es[4..]);
      { assert es[4..][1..] == []; }
      Run(s5, []);
    }
    assert !RatioKept(s5);
  }
}
