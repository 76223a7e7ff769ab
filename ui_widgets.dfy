/**
  The value-level rules of the immediate-mode UI: the widget record, the
  string hash that picks a widget's slot, what acquiring and abandoning a
  slot do to its record, the per-widget interaction step, the line-edit text
  rule, and what the end of a frame paints.  The class in UIEngine applies
  these rules to its pool in place.
*/
module UIWidgets {
  import opened Raster
  import opened CStrings
  import opened Options

  const MAX_UI_WIDGET_TEXT: nat := 512
  const MAX_UI_WIDGETS: nat := 997
  const MAX_UI_FG_COL_STACK: nat := 256
  const UI_FONT_SCALE: nat := 1
  const UI_PADDING: int := 2

  /** `sizeof(UIWidget *)` on 64-bit Windows, and `sizeof(UIWidgetFlags)`. */
  const POINTER_SIZE: nat := 8
  const FLAGS_SIZE: nat := 4

  type Flags = bv32

  const CLICKABLE: Flags := 1
  const TOGGLEABLE: Flags := 2
  const DETOGGLE_ON_ANY_CLICK: Flags := 8

  const BUTTON_FLAGS: Flags := CLICKABLE
  const TOGGLE_BUTTON_FLAGS: Flags := CLICKABLE | TOGGLEABLE
  const LINE_EDIT_FLAGS: Flags := CLICKABLE | TOGGLEABLE | DETOGGLE_ON_ANY_CLICK

  /** One slot of the widget pool.  `text` is the whole 512-character buffer. */
  datatype Widget = Widget(
    flags: Flags,
    text: seq<char>,
    min: Point,
    max: Point,
    isClicked: bool,
    isToggled: bool,
    fgCol: Pixel,
    isAlive: bool)

  predicate Clickable(w: Widget) { w.flags & CLICKABLE != 0 }
  predicate Toggleable(w: Widget) { w.flags & TOGGLEABLE != 0 }
  predicate DetoggleOnAnyClick(w: Widget) { w.flags & DETOGGLE_ON_ANY_CLICK != 0 }

  /** A text buffer of the right size whose last place is a NUL, so that its
      C string always ends inside it, and whose characters the font can draw. */
  predicate WellFormedText(buf: seq<char>) {
    |buf| == MAX_UI_WIDGET_TEXT && buf[MAX_UI_WIDGET_TEXT - 1] == NUL && IsAscii(buf)
  }

  predicate WellFormed(w: Widget) { WellFormedText(w.text) }

  function BlankText(): (t: seq<char>)
    ensures |t| == MAX_UI_WIDGET_TEXT && forall i | 0 <= i < |t| :: t[i] == NUL
  {
    seq(MAX_UI_WIDGET_TEXT, _ => NUL)
  }

  /** An all-zero record, as `memset(widget, 0, sizeof(*widget))` leaves it. */
  const ZERO_WIDGET: Widget :=
    Widget(0, BlankText(), Point(0, 0), Point(0, 0), false, false, Pixel(0, 0, 0, 0), false)

  const WHITE: Pixel := Pixel(255, 255, 255, 0)
  const DEFAULT_BG: Pixel := Pixel(200, 15, 15, 0)
  const TOGGLED_BG: Pixel := Pixel(45, 45, 100, 0)
  const ACTIVE_BG: Pixel := Pixel(100, 45, 45, 0)
  const HOT_BG: Pixel := Pixel(150, 30, 30, 0)

  // ---------------------------------------------------------------------------
  // Slot selection

  const HASH_SEED: int := 5381
  /** `size_t` arithmetic wraps modulo 2^64. */
  const SIZE_T_MODULUS: int := 0x1_0000_0000_0000_0000

  /** The value a `char` contributes to an integer sum: `char` is signed, so
      bytes 128..255 count as negative. */
  function SignedChar(c: char): int {
    var b := c as int % 256;
    if b < 128 then b else b - 256
  }

  /** The DJB2 hash of the characters of `s`: seed 5381, then `h * 33 + c`
      for each character, in 64-bit unsigned arithmetic. */
  function Djb2(s: string): (h: int)
    ensures 0 <= h < SIZE_T_MODULUS
  {
    if s == [] then HASH_SEED else (Djb2(s[..|s| - 1]) * 33 + SignedChar(s[|s| - 1])) % SIZE_T_MODULUS
  }

  /** The pool slot of the widget whose identity is the C string `id`. */
  function Slot(id: string): (i: nat)
    ensures i < MAX_UI_WIDGETS
  {
    Djb2(CStr(id)) % MAX_UI_WIDGETS
  }

  // ---------------------------------------------------------------------------
  // Acquiring and abandoning a slot

  /** The record after `UIPushWidget` acquires it with flags `requested` while `fg` is
      the top of the colour stack: a record with other flags is zeroed first. */
  function PushedWidget(w: Widget, requested: Flags, fg: Pixel): (r: Widget)
    ensures r.flags == requested && r.fgCol == fg && r.isAlive
    ensures w.flags == requested ==>
      r.text == w.text && r.min == w.min && r.max == w.max &&
      r.isClicked == w.isClicked && r.isToggled == w.isToggled
    ensures w.flags != requested ==>
      r.text == BlankText() && r.min == Point(0, 0) && r.max == Point(0, 0) &&
      !r.isClicked && !r.isToggled
    ensures WellFormed(w) ==> WellFormed(r)
  {
    var base := if w.flags == requested then w else ZERO_WIDGET.(flags := requested);
    base.(fgCol := fg, isAlive := true)
  }

  /** `memset(widget, 0, sizeof(widget))` where `widget` is a pointer: only
      the first POINTER_SIZE bytes of the record are zeroed, which are `flags`
      and the first POINTER_SIZE - FLAGS_SIZE characters of `text`. */
  function ClearedHead(w: Widget): (r: Widget)
    ensures r.flags == 0
    ensures |r.text| == |w.text| && (|w.text| > 0 ==> CStr(r.text) == [])
    ensures forall i | POINTER_SIZE - FLAGS_SIZE <= i < |w.text| :: r.text[i] == w.text[i]
    ensures r == w.(flags := 0, text := r.text)
    ensures WellFormed(w) ==> WellFormed(r)
  {
    var text := seq(|w.text|, i requires 0 <= i < |w.text| =>
                    if i < POINTER_SIZE - FLAGS_SIZE then NUL else w.text[i]);
    w.(flags := 0, text := text)
  }

  /** The record `UIFinish` leaves in a slot: live slots are kept, the others
      lose their head. */
  function FinishedSlot(w: Widget): Widget {
    if w.isAlive then w else ClearedHead(w)
  }

  /** A slot nobody acquired during a frame comes out of `UIFinish` with flags
      0 and an empty C string, but with its toggled bit, its clicked bit and
      its box intact.  A label (flags 0) acquired there later keeps all three. */
  lemma DeadSlotKeepsToggle(w: Widget, fg: Pixel)
    requires !w.isAlive && |w.text| > 0
    ensures FinishedSlot(w).flags == 0 && CStr(FinishedSlot(w).text) == []
    ensures FinishedSlot(w).isToggled == w.isToggled && FinishedSlot(w).isClicked == w.isClicked
    ensures FinishedSlot(w).min == w.min && FinishedSlot(w).max == w.max
    ensures PushedWidget(FinishedSlot(w), 0, fg).isToggled == w.isToggled
  {
  }

  // ---------------------------------------------------------------------------
  // Interaction

  /** `UIWidgetHasPoint`: inclusive on all four edges, so the hit box is the
      fill's half-open box grown by one on its far sides. */
  predicate HasPoint(w: Widget, x: int, y: int)
    ensures HasPoint(w, x, y) <==> InBox(w.min, Point(w.max.x + 1, w.max.y + 1), x, y)
  {
    w.min.x <= x <= w.max.x && w.min.y <= y <= w.max.y
  }

  /** The half-open box that `DrawRectangleFill` paints. */
  predicate InBox(min: Point, max: Point, x: int, y: int) {
    min.x <= x < max.x && min.y <= y < max.y
  }

  /** The far corner of a widget is a hit although the fill of the same box
      does not paint it. */
  lemma HitTestIncludesFarCorner(w: Widget)
    requires w.min.x <= w.max.x && w.min.y <= w.max.y
    ensures HasPoint(w, w.max.x, w.max.y)
    ensures !InBox(w.min, w.max, w.max.x, w.max.y)
  {
  }

  /** The pointer is down outside a widget that loses its toggle on such a click. */
  predicate Detoggles(w: Widget, mouseX: int, mouseY: int, mouseDown: bool) {
    !HasPoint(w, mouseX, mouseY) && DetoggleOnAnyClick(w) && mouseDown
  }

  datatype WidgetStep = WidgetStep(widget: Widget, hot: Option<nat>, active: Option<nat>)

  /** `UIDoWidget` for the widget in slot `idx`, given the pointer and the
      current hot and active slots. */
  function DoWidget(w: Widget, idx: nat, mouseX: int, mouseY: int, mouseDown: bool,
                    hot: Option<nat>, active: Option<nat>): (r: WidgetStep)
    ensures r.hot == if HasPoint(w, mouseX, mouseY) then Some(idx) else hot
    ensures r.active == if HasPoint(w, mouseX, mouseY) && Clickable(w) && mouseDown then Some(idx) else active
    ensures Clickable(w) ==>
      (r.widget.isClicked <==> r.hot == Some(idx) && r.active == Some(idx) && !mouseDown)
    ensures !Clickable(w) ==> r.widget.isClicked == w.isClicked
    ensures Detoggles(w, mouseX, mouseY, mouseDown) && !(Toggleable(w) && r.widget.isClicked) ==>
      !r.widget.isToggled
    ensures !Detoggles(w, mouseX, mouseY, mouseDown) ==>
      r.widget.isToggled == (w.isToggled != (Toggleable(w) && r.widget.isClicked))
    ensures Clickable(w) && Toggleable(w) ==>
      (r.widget.isToggled != w.isToggled <==>
         r.widget.isClicked || (Detoggles(w, mouseX, mouseY, mouseDown) && w.isToggled))
    ensures r.widget == w.(isClicked := r.widget.isClicked, isToggled := r.widget.isToggled)
  {
    var hit := HasPoint(w, mouseX, mouseY);
    var hot' := if hit then Some(idx) else hot;
    var active' := if hit && Clickable(w) && mouseDown then Some(idx) else active;
    var toggled := if Detoggles(w, mouseX, mouseY, mouseDown) then false else w.isToggled;
    var clicked := if Clickable(w) then hot' == Some(idx) && active' == Some(idx) && !mouseDown else w.isClicked;
    var toggled' := if Toggleable(w) && clicked then !toggled else toggled;
    WidgetStep(w.(isClicked := clicked, isToggled := toggled'), hot', active')
  }

  // ---------------------------------------------------------------------------
  // Line edit

  const BACKSPACE: char := 8 as char

  /** `isprint` in the C locale. */
  predicate IsPrint(c: char) { ' ' <= c <= '~' }

  /** `max_characters + 1`, capped at the buffer size. */
  function LineEditCapacity(maxCharacters: int): int {
    if maxCharacters + 1 > MAX_UI_WIDGET_TEXT then MAX_UI_WIDGET_TEXT else maxCharacters + 1
  }

  /** The text buffer after a toggled line edit consumes character `c`, where
      `capacity` counts the terminator. */
  function LineEditText(buf: seq<char>, c: char, capacity: int): (r: seq<char>)
    requires WellFormedText(buf) && capacity <= MAX_UI_WIDGET_TEXT
    ensures WellFormedText(r)
  {
    var len := CStrLen(buf);
    if c == BACKSPACE && len > 0 then buf[len - 1 := NUL]
    else if IsPrint(c) && len < capacity - 1 then buf[len := c][len + 1 := NUL]
    else buf
  }

  /** What a line edit does to its C string: a backspace drops the last
      character, a printable character is appended while there is room for
      it before the terminator, anything else changes nothing; so the text
      never grows past `capacity - 1` characters. */
  lemma LineEditEffect(buf: seq<char>, c: char, capacity: int)
    requires WellFormedText(buf) && capacity <= MAX_UI_WIDGET_TEXT
    ensures CStr(LineEditText(buf, c, capacity)) ==
      if c == BACKSPACE && |CStr(buf)| > 0 then CStr(buf)[..|CStr(buf)| - 1]
      else if IsPrint(c) && |CStr(buf)| < capacity - 1 then CStr(buf) + [c]
      else CStr(buf)
    ensures |CStr(LineEditText(buf, c, capacity))| <= Max(|CStr(buf)|, capacity - 1)
  {
    var r := LineEditText(buf, c, capacity);
    var len := CStrLen(buf);
    if c == BACKSPACE && len > 0 {
      CStrEndsAtFirstNul(r, len - 1);
      assert r[..len - 1] == buf[..len - 1];
    } else if IsPrint(c) && len < capacity - 1 {
      CStrEndsAtFirstNul(r, len + 1);
      assert r[..len + 1] == buf[..len] + [c];
    }
  }

  /** Typing "1234567", then '8', then '9', then a backspace into an empty line
      edit with `max_characters` 8: the first eight characters are kept, the
      ninth is dropped and the backspace leaves seven. */
  lemma {:induction false} LineEditScenario()
    ensures var cap := LineEditCapacity(8);
      var t7 := TypeAll(BlankText(), "1234567", cap);
      var t8 := LineEditText(t7, '8', cap);
      var t9 := LineEditText(t8, '9', cap);
      var tb := LineEditText(t9, BACKSPACE, cap);
      CStr(t7) == "1234567" && CStr(t8) == "12345678" && CStr(t9) == "12345678" && CStr(tb) == "1234567"
  {
    var cap := LineEditCapacity(8);
    assert cap == 9;
    var blank := BlankText();
    CStrEndsAtFirstNul(blank, 0);
    var s7 := "1234567";
    assert forall i | 0 <= i < |s7| :: IsPrint(s7[i]);
    TypeAllPrintable(blank, s7, cap);
    var t7 := TypeAll(blank, s7, cap);
    assert CStr(t7) == s7;
    LineEditEffect(t7, '8', cap);
    var t8 := LineEditText(t7, '8', cap);
    assert CStr(t8) == "12345678";
    LineEditEffect(t8, '9', cap);
    var t9 := LineEditText(t8, '9', cap);
    assert CStr(t9) == "12345678";
    LineEditEffect(t9, BACKSPACE, cap);
    assert "12345678"[..7] == s7;
  }

  /** The buffer after the characters of `s` are typed one per frame. */
  function TypeAll(buf: seq<char>, s: string, capacity: int): (r: seq<char>)
    requires WellFormedText(buf) && capacity <= MAX_UI_WIDGET_TEXT
    ensures WellFormedText(r)
    decreases |s|
  {
    if s == [] then buf else LineEditText(TypeAll(buf, s[..|s| - 1], capacity), s[|s| - 1], capacity)
  }

  /** Printable characters typed into a line edit with room for all of them
      are appended in order. */
  lemma {:induction false} TypeAllPrintable(buf: seq<char>, s: string, capacity: int)
    requires WellFormedText(buf) && capacity <= MAX_UI_WIDGET_TEXT
    requires forall i | 0 <= i < |s| :: IsPrint(s[i])
    requires |CStr(buf)| + |s| <= capacity - 1
    ensures CStr(TypeAll(buf, s, capacity)) == CStr(buf) + s
    decreases |s|
  {
    if s != [] {
      var init, c := s[..|s| - 1], s[|s| - 1];
      TypeAllPrintable(buf, init, capacity);
      TypeAppends(TypeAll(buf, init, capacity), c, capacity);
      assert (CStr(buf) + init) + [c] == CStr(buf) + s;
    }
  }

  /** One printable character with room for it is appended. */
  lemma TypeAppends(buf: seq<char>, c: char, capacity: int)
    requires WellFormedText(buf) && capacity <= MAX_UI_WIDGET_TEXT
    requires IsPrint(c) && |CStr(buf)| < capacity - 1
    ensures CStr(LineEditText(buf, c, capacity)) == CStr(buf) + [c]
  {
    LineEditEffect(buf, c, capacity);
  }

  // ---------------------------------------------------------------------------
  // End-of-frame painting

  /** Toggled takes precedence over active, active over hot. */
  function Background(w: Widget, idx: nat, hot: Option<nat>, active: Option<nat>): Pixel {
    if w.isToggled then TOGGLED_BG
    else if active == Some(idx) then ACTIVE_BG
    else if hot == Some(idx) then HOT_BG
    else DEFAULT_BG
  }

  /** A toggled widget is drawn UI_PADDING pixels to the right. */
  function XOffset(w: Widget): int { if w.isToggled then UI_PADDING else 0 }

  predicate FillPaints(w: Widget, px: int, py: int) {
    InBox(Point(w.min.x + XOffset(w), w.min.y), Point(w.max.x + XOffset(w), w.max.y), px, py)
  }

  predicate TextPaints(font: Font, w: Widget, px: int, py: int) {
    Painted(font, CStr(w.text), w.min.x + UI_PADDING + XOffset(w), w.min.y + UI_PADDING, UI_FONT_SCALE, px, py)
  }

  /** Pixel (px, py) after widget `w` in slot `idx` is drawn over `under`:
      its text over its background box. */
  function WidgetPixel(font: Font, w: Widget, idx: nat, hot: Option<nat>, active: Option<nat>,
                       px: int, py: int, under: Pixel): Pixel {
    if TextPaints(font, w, px, py) then w.fgCol
    else if FillPaints(w, px, py) then Background(w, idx, hot, active)
    else under
  }

  /** Pixel (px, py) after the live widgets among the first n slots are drawn,
      in slot order, over `under`. */
  function FramePixel(font: Font, ws: seq<Widget>, n: nat, hot: Option<nat>, active: Option<nat>,
                      px: int, py: int, under: Pixel): Pixel
    requires n <= |ws|
  {
    if n == 0 then under
    else
      var below := FramePixel(font, ws, n - 1, hot, active, px, py, under);
      if ws[n - 1].isAlive then WidgetPixel(font, ws[n - 1], n - 1, hot, active, px, py, below) else below
  }

  predicate WidgetPaints(font: Font, w: Widget, px: int, py: int) {
    w.isAlive && (TextPaints(font, w, px, py) || FillPaints(w, px, py))
  }

  /** A pixel no live widget covers keeps its colour. */
  lemma {:induction false} FramePixelUncovered(font: Font, ws: seq<Widget>, n: nat, hot: Option<nat>,
                                               active: Option<nat>, px: int, py: int, under: Pixel)
    requires n <= |ws|
    requires forall j | 0 <= j < n :: !WidgetPaints(font, ws[j], px, py)
    ensures FramePixel(font, ws, n, hot, active, px, py, under) == under
  {
    if n > 0 {
      FramePixelUncovered(font, ws, n - 1, hot, active, px, py, under);
    }
  }

  /** The last live widget that covers a pixel decides its colour: its
      foreground colour where its text is, its background elsewhere. */
  lemma {:induction false} FramePixelTopmost(font: Font, ws: seq<Widget>, n: nat, j: nat, hot: Option<nat>,
                                             active: Option<nat>, px: int, py: int, under: Pixel)
    requires j < n <= |ws|
    requires WidgetPaints(font, ws[j], px, py)
    requires forall k | j < k < n :: !WidgetPaints(font, ws[k], px, py)
    ensures FramePixel(font, ws, n, hot, active, px, py, under) ==
      if TextPaints(font, ws[j], px, py) then ws[j].fgCol else Background(ws[j], j, hot, active)
  {
    if n > j + 1 {
      FramePixelTopmost(font, ws, n - 1, j, hot, active, px, py, under);
    }
  }

  /** A label's box is a single point, so it paints no background: only its
      glyphs change the frame. */
  lemma LabelPaintsOnlyText(font: Font, w: Widget, idx: nat, hot: Option<nat>, active: Option<nat>,
                            px: int, py: int, under: Pixel)
    requires w.min == w.max
    ensures WidgetPixel(font, w, idx, hot, active, px, py, under) ==
      if TextPaints(font, w, px, py) then w.fgCol else under
  {
  }
}
