/**
  The UI state of the GTIN-8 tool: a pool of widget records addressed by the
  hash of their identity string, the hot and active slots, the pointer and the
  pending character, the foreground-colour stack, and the window buffer the
  frame is painted into.  Each method is one function of the program and
  states the new state through the rules in UIWidgets.
*/
module UIEngine {
  import opened Raster
  import opened CStrings
  import opened Options
  import opened UIWidgets

  const WINDOW_DIMENSIONS_X: nat := 720
  const WINDOW_DIMENSIONS_Y: nat := 480

  /** `HashString(string, modulo)`: the DJB2 hash of the C string `s`,
      reduced modulo `modulo`. */
  method HashString(s: string, modulo: nat) returns (r: nat)
    requires modulo > 0
    ensures r == Djb2(CStr(s)) % modulo
    ensures r < modulo
  {
    var result := HASH_SEED;
    var i := 0;
    while i < |s| && s[i] != NUL
      invariant 0 <= i <= CStrLen(s)
      invariant result == Djb2(s[..i])
    {
      assert s[..i + 1][..i] == s[..i];
      // (result << 5) + result + c, in size_t arithmetic
      result := (result * 32 + result + SignedChar(s[i])) % SIZE_T_MODULUS;
      i := i + 1;
    }
    assert s[..i] == CStr(s);
    r := result % modulo;
  }

  /** A copy of `text` into the record's buffer with `strncpy(.., 511)`. */
  function WithText(w: Widget, text: string): (r: Widget)
    requires WellFormed(w) && IsAscii(text)
    ensures WellFormed(r) && CStr(r.text) == Truncate(CStr(text), MAX_UI_WIDGET_TEXT - 1)
    ensures r == w.(text := r.text)
  {
    StrNCopyCStr(w.text, text, MAX_UI_WIDGET_TEXT - 1);
    w.(text := StrNCopy(w.text, text, MAX_UI_WIDGET_TEXT - 1))
  }

  /** The box of a line edit with room for `capacity - 1` characters at (x, y). */
  function LineEditBox(x: int, y: int, capacity: int): (Point, Point) {
    (Point(x - UI_PADDING, y - UI_PADDING),
     Point(x + UI_PADDING + (capacity - 1) * CellSize(UI_FONT_SCALE), y + UI_PADDING + CellSize(UI_FONT_SCALE)))
  }

  class UIState {
    const widgets: array<Widget>
    var hot: Option<nat>
    var active: Option<nat>
    var isMouseDown: bool
    var mouseX: int
    var mouseY: int
    var charInput: char
    const fgColStack: array<Pixel>
    var fgColStackCount: nat
    const surface: array2<Pixel>
    const font: Font

    predicate Valid()
      reads this, widgets
    {
      widgets.Length == MAX_UI_WIDGETS &&
      fgColStack.Length == MAX_UI_FG_COL_STACK &&
      fgColStackCount < MAX_UI_FG_COL_STACK &&
      surface.Length0 == WINDOW_DIMENSIONS_X && surface.Length1 == WINDOW_DIMENSIONS_Y &&
      charInput as int < 128 &&
      (hot.Some? ==> hot.value < MAX_UI_WIDGETS) &&
      (active.Some? ==> active.value < MAX_UI_WIDGETS) &&
      forall i | 0 <= i < widgets.Length :: WellFormed(widgets[i])
    }

    /** The pointer, the pending character and the colour stack count are as
        they were. */
    twostate predicate InputKept()
      reads this
    {
      isMouseDown == old(isMouseDown) && mouseX == old(mouseX) && mouseY == old(mouseY) &&
      charInput == old(charInput) && fgColStackCount == old(fgColStackCount)
    }

    /** The zero-initialised state of `g_ui_state` and the window buffer. */
    constructor (font: Font)
      ensures Valid() && fresh(widgets) && fresh(fgColStack) && fresh(surface)
      ensures this.font == font
      ensures forall i | 0 <= i < widgets.Length :: widgets[i] == ZERO_WIDGET
      ensures hot == None && active == None
      ensures !isMouseDown && mouseX == 0 && mouseY == 0 && charInput == NUL
      ensures fgColStackCount == 0
      ensures forall i | 0 <= i < fgColStack.Length :: fgColStack[i] == Pixel(0, 0, 0, 0)
    {
      widgets := new Widget[MAX_UI_WIDGETS](_ => ZERO_WIDGET);
      hot, active := None, None;
      isMouseDown, mouseX, mouseY, charInput := false, 0, 0, NUL;
      fgColStack := new Pixel[MAX_UI_FG_COL_STACK](_ => Pixel(0, 0, 0, 0));
      fgColStackCount := 0;
      surface := new Pixel[WINDOW_DIMENSIONS_X, WINDOW_DIMENSIONS_Y]((_, _) => Pixel(0, 0, 0, 0));
      this.font := font;
    }

    // -------------------------------------------------------------------------
    // Input written by the window procedure

    /** `WM_MOUSEMOVE`. */
    method OnMouseMove(x: int, y: int)
      requires Valid()
      modifies this
      ensures Valid()
      ensures mouseX == x && mouseY == y
      ensures isMouseDown == old(isMouseDown) && charInput == old(charInput)
      ensures hot == old(hot) && active == old(active) && fgColStackCount == old(fgColStackCount)
    {
      mouseX, mouseY := x, y;
    }

    /** `WM_LBUTTONDOWN` (down) and `WM_LBUTTONUP` (not down). */
    method OnMouseButton(down: bool)
      requires Valid()
      modifies this
      ensures Valid()
      ensures isMouseDown == down
      ensures mouseX == old(mouseX) && mouseY == old(mouseY) && charInput == old(charInput)
      ensures hot == old(hot) && active == old(active) && fgColStackCount == old(fgColStackCount)
    {
      isMouseDown := down;
    }

    /** `WM_CHAR`: a code with no bit set in 0xFF80 becomes the pending
        character; bits above 15 are not looked at. */
    method OnChar(wParam: bv64)
      requires Valid()
      modifies this
      ensures Valid()
      ensures charInput == if wParam & 0xFF80 == 0 then ((wParam & 0x7F) as int) as char else old(charInput)
      ensures isMouseDown == old(isMouseDown) && mouseX == old(mouseX) && mouseY == old(mouseY)
      ensures hot == old(hot) && active == old(active) && fgColStackCount == old(fgColStackCount)
    {
      if wParam & 0xFF80 == 0 {
        charInput := ((wParam & 0x7F) as int) as char;
      }
    }

    // -------------------------------------------------------------------------
    // Colour stack

    /** `UIPushColour`: pushes while fewer than 255 colours sit above the
        base entry, and otherwise does nothing. */
    method UIPushColour(colour: Pixel)
      requires Valid()
      modifies this, fgColStack
      ensures Valid()
      ensures old(fgColStackCount) < MAX_UI_FG_COL_STACK - 1 ==>
        fgColStackCount == old(fgColStackCount) + 1 && fgColStack[fgColStackCount] == colour &&
        forall i | 0 <= i < fgColStack.Length && i != fgColStackCount :: fgColStack[i] == old(fgColStack[i])
      ensures old(fgColStackCount) >= MAX_UI_FG_COL_STACK - 1 ==>
        fgColStackCount == old(fgColStackCount) && fgColStack[..] == old(fgColStack[..])
      ensures isMouseDown == old(isMouseDown) && mouseX == old(mouseX) && mouseY == old(mouseY)
      ensures charInput == old(charInput) && hot == old(hot) && active == old(active)
    {
      if fgColStackCount < MAX_UI_FG_COL_STACK - 1 {
        fgColStackCount := fgColStackCount + 1;
        fgColStack[fgColStackCount] := colour;
      }
    }

    /** `UIPopColour`: pops unless only the base entry is left. */
    method UIPopColour()
      requires Valid()
      modifies this
      ensures Valid()
      ensures fgColStackCount == if old(fgColStackCount) > 0 then old(fgColStackCount) - 1 else 0
      ensures isMouseDown == old(isMouseDown) && mouseX == old(mouseX) && mouseY == old(mouseY)
      ensures charInput == old(charInput) && hot == old(hot) && active == old(active)
    {
      if fgColStackCount > 0 {
        fgColStackCount := fgColStackCount - 1;
      }
    }

    // -------------------------------------------------------------------------
    // Frame lifecycle

    /** `UIPrepare`: no widget is hot and none is live yet, and the base of the
        colour stack is white again. */
    method UIPrepare()
      requires Valid()
      modifies this, widgets, fgColStack
      ensures Valid() && InputKept()
      ensures hot == None && active == old(active)
      ensures forall i | 0 <= i < widgets.Length :: widgets[i] == old(widgets[i]).(isAlive := false)
      ensures fgColStack[0] == WHITE
      ensures forall i | 1 <= i < fgColStack.Length :: fgColStack[i] == old(fgColStack[i])
    {
      hot := None;
      var i := 0;
      while i < MAX_UI_WIDGETS
        modifies widgets
        invariant 0 <= i <= MAX_UI_WIDGETS
        invariant forall j | 0 <= j < i :: widgets[j] == old(widgets[j]).(isAlive := false)
        invariant forall j | i <= j < widgets.Length :: widgets[j] == old(widgets[j])
      {
        widgets[i] := widgets[i].(isAlive := false);
        i := i + 1;
      }
      fgColStack[0] := WHITE;
    }

    /** `UIFinish`: the active slot is released once the pointer is up, the
        pending character is consumed, every live widget is painted in slot
        order and every other slot loses its head. */
    method UIFinish()
      requires Valid()
      modifies this, widgets, surface
      ensures Valid()
      ensures active == if old(isMouseDown) then old(active) else None
      ensures charInput == NUL
      ensures hot == old(hot) && isMouseDown == old(isMouseDown)
      ensures mouseX == old(mouseX) && mouseY == old(mouseY) && fgColStackCount == old(fgColStackCount)
      ensures forall i | 0 <= i < widgets.Length :: widgets[i] == FinishedSlot(old(widgets[i]))
      ensures forall px, py | InWindow(surface, px, py) ::
        surface[px, py] == FramePixel(font, old(widgets[..]), MAX_UI_WIDGETS, hot, active, px, py, old(surface[px, py]))
    {
      if !isMouseDown {
        active := None;
      }
      charInput := NUL;
      FinishSlots();
    }

    /** UIFinish's loop over the pool, in slot order. */
    method FinishSlots()
      requires Valid()
      modifies widgets, surface
      ensures Valid()
      ensures forall i | 0 <= i < widgets.Length :: widgets[i] == FinishedSlot(old(widgets[i]))
      ensures forall px, py | InWindow(surface, px, py) ::
        surface[px, py] == FramePixel(font, old(widgets[..]), MAX_UI_WIDGETS, hot, active, px, py, old(surface[px, py]))
    {
      ghost var ws := widgets[..];
      var i := 0;
      while i < MAX_UI_WIDGETS
        invariant 0 <= i <= MAX_UI_WIDGETS
        invariant forall j | 0 <= j < i :: widgets[j] == FinishedSlot(ws[j])
        invariant forall j | i <= j < widgets.Length :: widgets[j] == ws[j]
        invariant Valid()
        invariant forall px, py | InWindow(surface, px, py) ::
          surface[px, py] == FramePixel(font, ws, i, hot, active, px, py, old(surface[px, py]))
      {
        FinishSlot(i);
        i := i + 1;
      }
    }

    /** The body of UIFinish's loop for slot `idx`: a live widget is drawn
        over the window, any other record loses its head. */
    method FinishSlot(idx: nat)
      requires Valid() && idx < MAX_UI_WIDGETS
      modifies widgets, surface
      ensures Valid()
      ensures widgets[idx] == FinishedSlot(old(widgets[idx]))
      ensures forall j | 0 <= j < widgets.Length && j != idx :: widgets[j] == old(widgets[j])
      ensures forall px, py | InWindow(surface, px, py) ::
        surface[px, py] ==
          if old(widgets[idx]).isAlive
          then WidgetPixel(font, old(widgets[idx]), idx, hot, active, px, py, old(surface[px, py]))
          else old(surface[px, py])
    {
      var w := widgets[idx];
      if w.isAlive {
        DrawWidget(w, idx);
      } else {
        widgets[idx] := ClearedHead(w);
      }
    }

    /** The body of UIFinish's loop for a live widget: its background box in
        the colour its state selects, then its text. */
    method DrawWidget(w: Widget, idx: nat)
      requires Valid() && WellFormed(w)
      modifies surface
      ensures forall px, py | InWindow(surface, px, py) ::
        surface[px, py] == WidgetPixel(font, w, idx, hot, active, px, py, old(surface[px, py]))
    {
      var bg := DEFAULT_BG;
      var xOffset := 0;
      if w.isToggled {
        bg := TOGGLED_BG;
        xOffset := xOffset + UI_PADDING;
      } else if active == Some(idx) {
        bg := ACTIVE_BG;
      } else if hot == Some(idx) {
        bg := HOT_BG;
      }
      DrawRectangleFill(surface, bg, Point(w.min.x + xOffset, w.min.y), Point(w.max.x + xOffset, w.max.y));
      DrawString(surface, font, CStr(w.text), w.min.x + UI_PADDING + xOffset, w.min.y + UI_PADDING,
                 UI_FONT_SCALE, w.fgCol);
    }

    // -------------------------------------------------------------------------
    // Widgets

    /** `UIPushWidget`: acquires the slot of `id` for this frame. */
    method UIPushWidget(id: string, requested: Flags) returns (idx: nat)
      requires Valid()
      modifies widgets
      ensures Valid()
      ensures idx == Slot(id)
      ensures widgets[idx] == PushedWidget(old(widgets[idx]), requested, fgColStack[fgColStackCount])
      ensures forall j | 0 <= j < widgets.Length && j != idx :: widgets[j] == old(widgets[j])
    {
      idx := HashString(id, MAX_UI_WIDGETS);
      var w := widgets[idx];
      if w.flags != requested {
        w := ZERO_WIDGET.(flags := requested);
      }
      w := w.(fgCol := fgColStack[fgColStackCount], isAlive := true);
      widgets[idx] := w;
    }

    /** `UIDoWidget`: hit-tests the widget in slot `idx` against the pointer
        and updates its clicked and toggled bits and the hot and active
        slots. */
    method UIDoWidget(idx: nat)
      requires Valid() && idx < MAX_UI_WIDGETS
      modifies this, widgets
      ensures Valid() && InputKept()
      ensures var step := DoWidget(old(widgets[idx]), idx, mouseX, mouseY, isMouseDown, old(hot), old(active));
        widgets[idx] == step.widget && hot == step.hot && active == step.active
      ensures forall j | 0 <= j < widgets.Length && j != idx :: widgets[j] == old(widgets[j])
    {
      ghost var step := DoWidget(widgets[idx], idx, mouseX, mouseY, isMouseDown, hot, active);
      var w := widgets[idx];
      if HasPoint(w, mouseX, mouseY) {
        hot := Some(idx);
        if Clickable(w) && isMouseDown {
          active := Some(idx);
        }
      } else if DetoggleOnAnyClick(w) && isMouseDown {
        w := w.(isToggled := false);
      }
      if Clickable(w) {
        if hot == Some(idx) && active == Some(idx) && !isMouseDown {
          w := w.(isClicked := true);
        } else {
          w := w.(isClicked := false);
        }
      }
      if Toggleable(w) && w.isClicked {
        w := w.(isToggled := !w.isToggled);
      }
      assert w == step.widget && hot == step.hot && active == step.active;
      widgets[idx] := w;
    }

    /** `UILabel`: a widget with no flags whose box is the single point
        (x, y). */
    method UILabel(text: string, x: int, y: int)
      requires Valid() && IsAscii(text)
      modifies this, widgets
      ensures Valid() && InputKept()
      ensures var idx := Slot(text);
        var placed := WithText(PushedWidget(old(widgets[idx]), 0, fgColStack[fgColStackCount]), text)
                        .(min := Point(x, y), max := Point(x, y));
        var step := DoWidget(placed, idx, mouseX, mouseY, isMouseDown, old(hot), old(active));
        widgets[idx] == step.widget && hot == step.hot && active == step.active
      ensures CStr(widgets[Slot(text)].text) == Truncate(CStr(text), MAX_UI_WIDGET_TEXT - 1)
      ensures widgets[Slot(text)].min == widgets[Slot(text)].max == Point(x, y)
      ensures forall j | 0 <= j < widgets.Length && j != Slot(text) :: widgets[j] == old(widgets[j])
    {
      var idx := UIPushWidget(text, 0);
      widgets[idx] := WithText(widgets[idx], text).(min := Point(x, y), max := Point(x, y));
      UIDoWidget(idx);
    }

    /** The start of UIButton and UIToggleButton: the slot of `text` is
        acquired, takes a copy of `text` and is given the box MeasureString
        computes for it. */
    method PlaceMeasured(text: string, requested: Flags, x: int, y: int) returns (idx: nat)
      requires Valid() && IsAscii(text)
      modifies widgets
      ensures Valid()
      ensures idx == Slot(text)
      ensures var box := MeasuredBox(CStr(text), x, y, UI_FONT_SCALE, UI_PADDING);
        widgets[idx] == WithText(PushedWidget(old(widgets[idx]), requested, fgColStack[fgColStackCount]), text)
                          .(min := box.0, max := box.1)
      ensures forall j | 0 <= j < widgets.Length && j != idx :: widgets[j] == old(widgets[j])
    {
      idx := UIPushWidget(text, requested);
      var min, max := MeasureString(CStr(text), x, y, UI_FONT_SCALE, UI_PADDING);
      widgets[idx] := WithText(widgets[idx], text).(min := min, max := max);
    }

    /** `UIButton`: a clickable widget sized by MeasureString; reports whether
        it was clicked this frame. */
    method UIButton(text: string, x: int, y: int) returns (clicked: bool)
      requires Valid() && IsAscii(text)
      modifies this, widgets
      ensures Valid() && InputKept()
      ensures var idx := Slot(text);
        var box := MeasuredBox(CStr(text), x, y, UI_FONT_SCALE, UI_PADDING);
        var placed := WithText(PushedWidget(old(widgets[idx]), BUTTON_FLAGS, fgColStack[fgColStackCount]), text)
                        .(min := box.0, max := box.1);
        var step := DoWidget(placed, idx, mouseX, mouseY, isMouseDown, old(hot), old(active));
        widgets[idx] == step.widget && hot == step.hot && active == step.active
      ensures clicked == widgets[Slot(text)].isClicked
      ensures clicked <==> hot == Some(Slot(text)) && active == Some(Slot(text)) && !isMouseDown
      ensures forall j | 0 <= j < widgets.Length && j != Slot(text) :: widgets[j] == old(widgets[j])
    {
      var idx := PlaceMeasured(text, BUTTON_FLAGS, x, y);
      UIDoWidget(idx);
      clicked := widgets[idx].isClicked;
    }

    /** `UIToggleButton`: a clickable, toggleable widget sized by
        MeasureString; reports its toggled bit, which a click flips. */
    method UIToggleButton(text: string, x: int, y: int) returns (toggled: bool)
      requires Valid() && IsAscii(text)
      modifies this, widgets
      ensures Valid() && InputKept()
      ensures var idx := Slot(text);
        var box := MeasuredBox(CStr(text), x, y, UI_FONT_SCALE, UI_PADDING);
        var placed := WithText(PushedWidget(old(widgets[idx]), TOGGLE_BUTTON_FLAGS, fgColStack[fgColStackCount]), text)
                        .(min := box.0, max := box.1);
        var step := DoWidget(placed, idx, mouseX, mouseY, isMouseDown, old(hot), old(active));
        widgets[idx] == step.widget && hot == step.hot && active == step.active &&
        toggled == (placed.isToggled != step.widget.isClicked)
      ensures toggled == widgets[Slot(text)].isToggled
      ensures forall j | 0 <= j < widgets.Length && j != Slot(text) :: widgets[j] == old(widgets[j])
    {
      var idx := PlaceMeasured(text, TOGGLE_BUTTON_FLAGS, x, y);
      UIDoWidget(idx);
      toggled := widgets[idx].isToggled;
    }

    /** `UILineEdit`: a clickable, toggleable widget that loses its toggle on a
        click elsewhere; while toggled it consumes the pending character into
        its own text buffer.  Returns that buffer's C string. */
    method UILineEdit(id: string, x: int, y: int, maxCharacters: int) returns (text: string)
      requires Valid()
      requires 0 <= maxCharacters < 0x7FFF_FFFF
      modifies this, widgets
      ensures Valid() && InputKept()
      ensures var idx := Slot(id);
        var capacity := LineEditCapacity(maxCharacters);
        var box := LineEditBox(x, y, capacity);
        var placed := PushedWidget(old(widgets[idx]), LINE_EDIT_FLAGS, fgColStack[fgColStackCount])
                        .(min := box.0, max := box.1);
        var step := DoWidget(placed, idx, mouseX, mouseY, isMouseDown, old(hot), old(active));
        hot == step.hot && active == step.active &&
        widgets[idx] == (if step.widget.isToggled && charInput != NUL
                         then step.widget.(text := LineEditText(step.widget.text, charInput, capacity))
                         else step.widget) &&
        |text| <= Max(|CStr(step.widget.text)|, capacity - 1)
      ensures text == CStr(widgets[Slot(id)].text)
      ensures forall j | 0 <= j < widgets.Length && j != Slot(id) :: widgets[j] == old(widgets[j])
    {
      var capacity := maxCharacters + 1;
      if capacity > MAX_UI_WIDGET_TEXT {
        capacity := MAX_UI_WIDGET_TEXT;
      }
      assert capacity == LineEditCapacity(maxCharacters);
      var idx := UIPushWidget(id, LINE_EDIT_FLAGS);
      var box := LineEditBox(x, y, capacity);
      widgets[idx] := widgets[idx].(min := box.0, max := box.1);
      ghost var placed := widgets[idx];
      ghost var hot0, active0 := hot, active;
      UIDoWidget(idx);
      ghost var step := DoWidget(placed, idx, mouseX, mouseY, isMouseDown, hot0, active0);
      assert widgets[idx] == step.widget;
      LineEditConsume(idx, capacity);
      text := CStr(widgets[idx].text);
    }

    /** The end of UILineEdit: a toggled line edit takes the pending
        character into its text. */
    method LineEditConsume(idx: nat, capacity: int)
      requires Valid() && idx < MAX_UI_WIDGETS && capacity <= MAX_UI_WIDGET_TEXT
      modifies widgets
      ensures Valid()
      ensures widgets[idx] ==
        if old(widgets[idx]).isToggled && charInput != NUL
        then old(widgets[idx]).(text := LineEditText(old(widgets[idx]).text, charInput, capacity))
        else old(widgets[idx])
      ensures |CStr(widgets[idx].text)| <= Max(|CStr(old(widgets[idx]).text)|, capacity - 1)
      ensures forall j | 0 <= j < widgets.Length && j != idx :: widgets[j] == old(widgets[j])
    {
      var w := widgets[idx];
      if w.isToggled && charInput != NUL {
        LineEditEffect(w.text, charInput, capacity);
        widgets[idx] := w.(text := LineEditText(w.text, charInput, capacity));
      }
    }
  }

  /** One frame holding only the button "ok" drawn at the pointer: a press
      makes the button active, a release over the active button is a click,
      and the end of a frame with the pointer up releases the active slot. */
  method ButtonFrame(ui: UIState, x: int, y: int) returns (clicked: bool)
    requires ui.Valid() && ui.mouseX == x && ui.mouseY == y
    modifies ui, ui.widgets, ui.surface, ui.fgColStack
    ensures ui.Valid()
    ensures ui.mouseX == x && ui.mouseY == y && ui.isMouseDown == old(ui.isMouseDown)
    ensures clicked <==> old(ui.active) == Some(Slot("ok")) && !ui.isMouseDown
    ensures ui.active == if ui.isMouseDown then Some(Slot("ok")) else None
  {
    CStrOfNulFree("ok");
    PenInsideMeasuredBox("ok", x, y, UI_FONT_SCALE, UI_PADDING);
    ui.UIPrepare();
    clicked := ui.UIButton("ok", x, y);
    ui.UIFinish();
  }

  /** A press and release inside the button "ok": the press frame does not
      report a click, the release frame does, and the frame after it does
      not. */
  method ButtonClickScenario(font: Font, x: int, y: int) returns (f1: bool, f2: bool, f3: bool)
    ensures !f1 && f2 && !f3
  {
    var ui := new UIState(font);
    ui.OnMouseMove(x, y);
    ui.OnMouseButton(true);
    f1 := ButtonFrame(ui, x, y);
    ui.OnMouseButton(false);
    f2 := ButtonFrame(ui, x, y);
    f3 := ButtonFrame(ui, x, y);
  }
}
