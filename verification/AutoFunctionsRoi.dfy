/** The region of interest of the auto functions: preset modes, custom writes and format changes. */
module AutoFunctionsRoi {

  const StepSize: int := 4

  // preset indices
  const Full: int := 0
  const Custom: int := 1
  const Center50: int := 2
  const Center25: int := 3
  const BottomHalf: int := 4
  const TopHalf: int := 5

  datatype Rect = Rect(left: int, top: int, width: int, height: int)

  datatype Roi = Roi(imageWidth: nat, imageHeight: nat, rect: Rect, mode: int, active: bool)

  datatype Write =
    | Enable(on: bool)
    | Preset(mode: int)
    | Left(v: int)
    | Top(v: int)
    | Width(v: int)
    | Height(v: int)
    | Format(w: nat, h: nat)

  /** The remainder of C++: it has the sign of the dividend. */
  function Rem(x: int, n: int): int
    requires n > 0
  {
    if x >= 0 then x % n else -((-x) % n)
  }

  function RoundDown(x: int): int {
    x - Rem(x, StepSize)
  }

  function Rounded(r: Rect): Rect {
    Rect(RoundDown(r.left), RoundDown(r.top), RoundDown(r.width), RoundDown(r.height))
  }

  predicate KnownPreset(mode: int) {
    Full <= mode <= TopHalf
  }

  /** An unknown mode is remembered although nothing else changes. */
  function SetPreset(s: Roi, mode: int): Roi {
    var w, h := s.imageWidth, s.imageHeight;
    if mode == Full then s.(mode := mode, rect := Rounded(Rect(0, 0, w, h)))
    else if mode == Custom then s.(mode := mode, rect := Rounded(s.rect))
    else if mode == Center50 then s.(mode := mode, rect := Rounded(Rect(w / 4, h / 4, w / 2, h / 2)))
    else if mode == Center25 then s.(mode := mode, rect := Rounded(Rect((w / 8) * 3, (h / 8) * 3, w / 4, h / 4)))
    else if mode == BottomHalf then s.(mode := mode, rect := Rounded(Rect(0, h / 2, w, h / 2)))
    else if mode == TopHalf then s.(mode := mode, rect := Rounded(Rect(0, 0, w, h / 2)))
    else s.(mode := mode)
  }

  function Apply(s: Roi, op: Write): Roi {
    match op
    case Enable(on) => s.(active := on)
    case Preset(mode) => SetPreset(s, mode)
    case Left(v) =>
      s.(mode := Custom,
         rect := s.rect.(left := v,
                         width := if s.imageWidth != 0 && v + s.rect.width > s.imageWidth then s.imageWidth - v else s.rect.width))
    case Top(v) =>
      s.(mode := Custom,
         rect := s.rect.(top := v,
                         height := if s.imageHeight != 0 && v + s.rect.height > s.imageHeight then s.imageHeight - v else s.rect.height))
    case Width(v) => s.(mode := Custom, rect := s.rect.(width := v))
    case Height(v) => s.(mode := Custom, rect := s.rect.(height := v))
    case Format(w, h) =>
      var t := s.(imageWidth := w, imageHeight := h);
      if s.mode != Custom then SetPreset(t, s.mode) else t
  }

  function Initial(): Roi {
    Roi(0, 0, Rect(0, 0, 0, 0), Full, false)
  }

  function Run(ops: seq<Write>): Roi {
    if ops == [] then Initial() else Apply(Run(ops[..|ops| - 1]), ops[|ops| - 1])
  }

  /** The rectangle lies inside the image and all its numbers are multiples of the step. */
  predicate Legal(s: Roi) {
    && 0 <= s.rect.left && 0 <= s.rect.top && 0 <= s.rect.width && 0 <= s.rect.height
    && s.rect.left + s.rect.width <= s.imageWidth && s.rect.top + s.rect.height <= s.imageHeight
    && s.rect.left % StepSize == 0 && s.rect.top % StepSize == 0 && s.rect.width % StepSize == 0 && s.rect.height % StepSize == 0
  }

  lemma RoundedLegal(x: nat)
    ensures RoundDown(x) % StepSize == 0 && 0 <= RoundDown(x) <= x < RoundDown(x) + StepSize
  {
  }

  // ----- what each preset stands for

  /** x is the given part of size, short of it by less than one step. */
  predicate Near(x: int, part: int, parts: int, size: int) {
    0 <= part * size - parts * x < parts * StepSize
  }

  /** The margins on the two sides are equal up to less than four steps, the second being the larger. */
  predicate Centred(start: int, length: int, size: int) {
    0 <= (size - start - length) - start < 4 * StepSize
  }

  /** The rectangle is the part of the image its mode names. */
  predicate Shaped(s: Roi) {
    var r, w, h := s.rect, s.imageWidth, s.imageHeight;
    && (s.mode == Full ==> r.left == 0 && r.top == 0 && Near(r.width, 1, 1, w) && Near(r.height, 1, 1, h))
    && (s.mode == TopHalf ==> r.left == 0 && r.top == 0 && Near(r.width, 1, 1, w) && Near(r.height, 1, 2, h))
    && (s.mode == BottomHalf ==> r.left == 0 && Near(r.top, 1, 2, h) && Near(r.width, 1, 1, w) && Near(r.height, 1, 2, h))
    && (s.mode == Center50 ==>
          Near(r.width, 1, 2, w) && Near(r.height, 1, 2, h) && Centred(r.left, r.width, w) && Centred(r.top, r.height, h))
    && (s.mode == Center25 ==>
          Near(r.width, 1, 4, w) && Near(r.height, 1, 4, h) && Centred(r.left, r.width, w) && Centred(r.top, r.height, h))
  }

  /** Every preset makes the part of the image it names. */
  lemma PresetShaped(s: Roi, mode: int)
    ensures Shaped(Apply(s, Preset(mode))) || !KnownPreset(mode)
  {
    hide RoundDown;
    var w, h := s.imageWidth, s.imageHeight;
    RoundedLegal(0);
    RoundedLegal(w);
    RoundedLegal(h);
    RoundedLegal(w / 2);
    RoundedLegal(h / 2);
    RoundedLegal(w / 4);
    RoundedLegal(h / 4);
    RoundedLegal((w / 8) * 3);
    RoundedLegal((h / 8) * 3);
  }

  /** The two halves meet in one row and cover the image but for less than two steps of rows and one of columns. */
  lemma HalvesMeet(s: Roi)
    ensures var t, b := Apply(s, Preset(TopHalf)).rect, Apply(s, Preset(BottomHalf)).rect;
            && t.top + t.height == b.top && t.left == b.left && t.width == b.width && t.height == b.height
            && 0 <= s.imageHeight - (b.top + b.height) < 2 * StepSize
  {
    hide RoundDown;
    RoundedLegal(0);
    RoundedLegal(s.imageHeight / 2);
  }

  /** Asking for custom moves every number towards zero, by less than a step, onto the grid. */
  lemma CustomRounds(s: Roi)
    ensures var r, c := s.rect, Apply(s, Preset(Custom)).rect;
            Snapped(r.left, c.left) && Snapped(r.top, c.top) && Snapped(r.width, c.width) && Snapped(r.height, c.height)
  {
    SnapDown(s.rect.left);
    SnapDown(s.rect.top);
    SnapDown(s.rect.width);
    SnapDown(s.rect.height);
    hide RoundDown;
  }

  predicate Snapped(x: int, y: int) {
    y % StepSize == 0 && if x >= 0 then y <= x < y + StepSize else y - StepSize < x <= y
  }

  lemma SnapDown(x: int)
    ensures Snapped(x, RoundDown(x))
  {
    if x >= 0 {
      RoundedLegal(x);
    } else {
      var m := (-x) / StepSize;
      assert RoundDown(x) == StepSize * (-m);
    }
  }

  /** Moving the left edge cuts the width exactly so far that the right edge stays inside a known image, and touches
      nothing else; moving the top edge likewise. Every such write leaves custom mode, and the switch changes only itself. */
  lemma EdgeCuts(s: Roi, v: int, on: bool)
    ensures var t := Apply(s, Left(v)); var r := t.rect;
            && t == s.(mode := Custom, rect := s.rect.(left := v, width := r.width))
            && (s.imageWidth == 0 || v + s.rect.width <= s.imageWidth ==> r.width == s.rect.width)
            && (s.imageWidth > 0 && v + s.rect.width > s.imageWidth ==> r.left + r.width == s.imageWidth)
    ensures var t := Apply(s, Top(v)); var r := t.rect;
            && t == s.(mode := Custom, rect := s.rect.(top := v, height := r.height))
            && (s.imageHeight == 0 || v + s.rect.height <= s.imageHeight ==> r.height == s.rect.height)
            && (s.imageHeight > 0 && v + s.rect.height > s.imageHeight ==> r.top + r.height == s.imageHeight)
    ensures Apply(s, Width(v)) == s.(mode := Custom, rect := s.rect.(width := v))
    ensures Apply(s, Height(v)) == s.(mode := Custom, rect := s.rect.(height := v))
    ensures Apply(s, Enable(on)) == s.(active := on)
  {
  }

  /** A new format is a new request for the mode that is set; a custom rectangle stays as it is. */
  lemma FormatAsksAgain(s: Roi, w: nat, h: nat)
    ensures var t := Apply(s, Format(w, h));
            && t.imageWidth == w && t.imageHeight == h && t.mode == s.mode && t.active == s.active
            && (s.mode == Custom || !KnownPreset(s.mode) ==> t.rect == s.rect)
            && (s.mode != Custom ==> Apply(t, Preset(s.mode)) == t)
  {
  }

  /** Every preset but custom makes a legal rectangle, whatever the rectangle was before. */
  lemma PresetLegal(s: Roi, mode: int)
    requires KnownPreset(mode) && mode != Custom
    ensures Legal(SetPreset(s, mode))
  {
    hide RoundDown;
    var w, h := s.imageWidth, s.imageHeight;
    RoundedLegal(0);
    RoundedLegal(w);
    RoundedLegal(h);
    RoundedLegal(w / 2);
    RoundedLegal(h / 2);
    RoundedLegal(w / 4);
    RoundedLegal(h / 4);
    RoundedLegal((w / 8) * 3);
    RoundedLegal((h / 8) * 3);
  }

  /** A known mode other than custom has a legal rectangle: the part of the image it names. */
  predicate Kept(s: Roi) {
    KnownPreset(s.mode) && s.mode != Custom ==> Legal(s) && Shaped(s)
  }

  lemma Unmoved(s: Roi, t: Roi)
    requires t == s.(active := t.active)
    ensures (Legal(t) <==> Legal(s)) && (Shaped(t) <==> Shaped(s))
  {
  }

  /** Every write and every format change keeps it so, from whatever state. */
  lemma ApplyKeeps(s: Roi, op: Write)
    requires Kept(s)
    ensures Kept(Apply(s, op))
  {
    hide Legal, Shaped, Rounded;
    if op.Preset? && op.mode != Custom && KnownPreset(op.mode) {
      PresetLegal(s, op.mode);
      PresetShaped(s, op.mode);
    } else if op.Format? && s.mode != Custom && KnownPreset(s.mode) {
      PresetLegal(s.(imageWidth := op.w, imageHeight := op.h), s.mode);
      PresetShaped(s.(imageWidth := op.w, imageHeight := op.h), s.mode);
    } else if op.Enable? {
      Unmoved(s, s.(active := op.on));
    }
  }

  predicate KnownPresets(ops: seq<Write>) {
    forall i :: 0 <= i < |ops| && ops[i].Preset? ==> KnownPreset(ops[i].mode)
  }

  /** In every reachable state, a known mode other than custom has a legal rectangle, the part of the present image
      it names; and the mode is known in every state reached through known presets. */
  lemma {:induction false} RunLegal(ops: seq<Write>)
    ensures Kept(Run(ops))
    ensures KnownPresets(ops) ==> KnownPreset(Run(ops).mode)
  {
    if ops != [] {
      var before, op := ops[..|ops| - 1], ops[|ops| - 1];
      RunLegal(before);
      ApplyKeeps(Run(before), op);
    }
  }

  /** A non-custom request leaves a legal rectangle exactly when the index is known or the rectangle
      already was legal. */
  lemma PresetLegalIff(s: Roi, mode: int)
    requires mode != Custom
    ensures Legal(SetPreset(s, mode)) <==> KnownPreset(mode) || Legal(s)
  {
    if KnownPreset(mode) {
      PresetLegal(s, mode);
    }
  }

  lemma PresetKeeps(s: Roi, mode: int)
    ensures mode != Custom ==> (Legal(SetPreset(s, mode)) <==> KnownPreset(mode) || Legal(s))
    ensures mode == Custom || KnownPreset(mode) ==> Kept(SetPreset(s, mode))
  {
    hide Legal, Shaped, Rounded;
    if mode != Custom {
      PresetLegalIff(s, mode);
      PresetShaped(s, mode);
    }
  }

  /** An unknown index after custom writes: the mode is not custom and the rectangle leaves the image. */
  lemma UnknownPresetIllegal()
    ensures var s := Run([Format(640, 480), Width(1000), Preset(6)]);
            s.mode != Custom && !Legal(s)
  {
    var a, b := Format(640, 480), Width(1000);
    assert [a, b, Preset(6)][..2] == [a, b] && [a, b][..1] == [a] && [a][..0] == [];
    assert Run([a]) == Apply(Initial(), a);
    assert Run([a, b]) == Apply(Run([a]), b);
  }

  // ----- the property object

  class SoftwareProperties {
    var width: nat
    var height: nat
    var top: int
    var left: int
    var roiWidth: int
    var roiHeight: int
    var mode: int
    var active: bool

    ghost function State(): Roi
      reads this
    {
      Roi(width, height, Rect(left, top, roiWidth, roiHeight), mode, active)
    }

    /** In a known mode other than custom the rectangle is inside the image and on the grid. */
    ghost predicate Valid()
      reads this
    {
      Kept(State())
    }

    constructor ()
      ensures Valid() && State() == Initial()
    {
      width, height, top, left, roiWidth, roiHeight, mode, active := 0, 0, 0, 0, 0, 0, Full, false;
    }

    /** Whatever the rectangle was, a known preset other than custom leaves the part of the image it names. */
    method SetAutoFunctionsPresetMode(m: int)
      modifies this
      ensures State() == Apply(old(State()), Preset(m))
      ensures m != Custom ==> (Legal(State()) <==> KnownPreset(m) || Legal(old(State())))
      ensures m == Custom || KnownPreset(m) ==> Valid()
      ensures width == old(width) && height == old(height) && mode == m
    {
      hide Legal, Kept, Shaped;
      PresetKeeps(State(), m);
      mode := m;
      if m == Full {
        top, left, roiWidth, roiHeight := 0, 0, width, height;
      } else if m == Center50 {
        top, left, roiHeight, roiWidth := height / 4, width / 4, height / 2, width / 2;
      } else if m == Center25 {
        top, left, roiHeight, roiWidth := (height / 8) * 3, (width / 8) * 3, height / 4, width / 4;
      } else if m == BottomHalf {
        top, left, roiWidth, roiHeight := height / 2, 0, width, height / 2;
      } else if m == TopHalf {
        top, left, roiHeight, roiWidth := 0, 0, height / 2, width;
      } else if m != Custom {
        return;
      }
      top := top - Rem(top, StepSize);
      left := left - Rem(left, StepSize);
      roiWidth := roiWidth - Rem(roiWidth, StepSize);
      roiHeight := roiHeight - Rem(roiHeight, StepSize);
    }

    /** set_int for the ROI properties, and update_to_new_format. */
    method Write(op: Write)
      requires Valid()
      modifies this
      ensures Valid() && State() == Apply(old(State()), op)
      ensures op.Preset? || op.Format? || op.Enable? || mode == Custom
    {
      hide Legal, Kept, Shaped;
      ApplyKeeps(State(), op);
      match op {
        case Enable(on) => active := on;
        case Preset(m) => SetAutoFunctionsPresetMode(m);
        case Left(v) =>
          left := v;
          mode := Custom;
          if width != 0 && left + roiWidth > width {
            roiWidth := width - left;
          }
        case Top(v) =>
          top := v;
          mode := Custom;
          if height != 0 && top + roiHeight > height {
            roiHeight := height - top;
          }
        case Width(v) =>
          roiWidth := v;
          mode := Custom;
        case Height(v) =>
          roiHeight := v;
          mode := Custom;
        case Format(w, h) =>
          width, height := w, h;
          if mode != Custom {
            SetAutoFunctionsPresetMode(mode);
          }
      }
    }
  }
}
