# Hangman and the GTIN-8 tool, modelled in Dafny

Two small Win32 programs write into a fixed-size window bitmap. This project
models the core that is left once the window and file plumbing is removed.

- **The GTIN-8 tool** (`gtin8_1/main.c`) runs on an immediate-mode UI. The
  widgets are declared again every frame. Their records persist in a
  997-slot pool, picked by the DJB2 hash of an identity string, beside the
  `hot` and `active` slots and a bounded foreground-colour stack. `UIPrepare` opens a frame and `UIFinish`
  paints it. The widgets are labels, buttons, toggle buttons and a line edit
  that keeps its own text buffer. A bitmap-font rasteriser measures and draws
  text and fills rectangles. On top of that sit the GS1 modulo-10 GTIN-8
  check digit (section 7.9.1 of the GS1 General Specifications), generated
  and verified, and the lookup of an inventory item by its code.
- **Hangman** (`hangman/main.c`) runs a guess state machine on every
  character message. It keeps the guessed letters and their count, the
  masked word shown in a 4096-character buffer, the lives (10 down to 0) and
  the game state (playing, won, lost). A reset starts a new game. The window
  is painted with a clipped copy of the artwork frame for the lives left (a
  white window before the first wrong guess).
- Both programs look up the name of a window message by bisection in a table
  assumed sorted by id.

Modules:

| module | file | what |
|---|---|---|
| `Options` | options.dfy | `Option` |
| `CStrings` | cstrings.dfy | NUL-terminated buffers: `strlen`, `strncpy`, `strncmp` |
| `Raster` | raster.dfy | pixels, the text cursor, `DrawString`, `DrawRectangleFill`, `MeasureString` |
| `UIWidgets` | ui_widgets.dfy | the widget record and the pure rules: hash slot, acquiring and abandoning a slot, the interaction step, the line-edit rule, what a frame paints |
| `UIEngine` | ui_engine.dfy | class `UIState`, whose methods apply those rules to the pool in place |
| `Gtin8` | gtin8.dfy | the check-digit rule, generator, classifier and inventory lookup |
| `WindowMessages` | wm_table.dfy | the bisection over the message table |
| `Hangman` | hangman.dfy | the game as a value (`Round`), its invariant, class `Game`, and `DrawImage` |

How the programs are modelled:

- The window bitmap is an `array2<Pixel>` addressed by (x, y), not the flat
  array addressed by `x + y * WINDOW_DIMENSIONS_X`. Its two dimensions are
  the program's window size: 720 × 480 for the GTIN-8 tool, 640 × 480 for
  Hangman.
- The font is a parameter `font(c, row)`. The widget pool, the colour stack,
  `g_guessed_word` and `g_guessed_letters` are arrays of the program's sizes.
- A widget's text is its whole 512-character buffer. `CStr` is the part
  before the first NUL.
- The word Hangman draws at random is the parameter `chosen` of
  `Game.OnChar`.

Behaviour of the code reproduced as written:

- A dead slot keeps its toggled bit, clicked bit and box at the end of a
  frame. `memset(widget, 0, sizeof(widget))` clears only a pointer's
  8 bytes (64-bit Windows): the flags and the first four text characters.
- `MeasureString`'s box is one row short of what `DrawString` paints once
  a character follows the last line feed.
- The hit test includes all four edges of a box. The fill of the same box
  leaves out the far ones.
- A label is given a box that is a single point.
- `char` is signed, so the `c < 128` tests in `DrawString` and
  `MeasureString` always hold.
- A character that is not a digit in the check place makes `GTIN8Verify`
  report a failed check, not an invalid string.
- `ResetGame` leaves the characters of the guessed-letter array in place and
  only sets their count to 0.
- A Hangman game whose word is empty is won at the first guess.
- The bisection moves `bottom` to the probe itself, not one past it. It
  still terminates: it stops as soon as the next probe would be the same
  place.

## Model

| member | source | states |
|---|---|---|
| CStrings.CStrLen | gtin8_1/main.c:647 | `strlen`: no NUL comes before the result, and a NUL is at it whenever it is inside the buffer |
| CStrings.StrNCopy | gtin8_1/main.c:609 | `strncpy(dest, src, n)`: the first n places hold the C string of `src` padded with NULs; the places from n on are unchanged |
| CStrings.StrNCopyInto | hangman/main.c:257 | `strncpy` on a character array leaves exactly the buffer `StrNCopy` describes |
| CStrings.StrNCopyCStr | gtin8_1/main.c:586 | when the place after the copied range holds a NUL, the copy's C string is the source's C string cut to n characters |
| Raster.DrawRectangleFill | gtin8_1/main.c:451-467 | every in-window pixel of the half-open box [min, max) takes the colour; every other pixel is unchanged |
| Raster.DrawString | gtin8_1/main.c:416-449 | exactly the in-window pixels set in some glyph's (8 << scale)-sided cell at that character's cursor take the colour; the rest are unchanged (the same function is at hangman/main.c:200-234) |
| Raster.MeasureString | gtin8_1/main.c:379-413 | the box runs from (x, y) minus the padding to the longest row's width and max(1, line feeds) rows of cells, plus the padding |
| Raster.PenInsideMeasuredBox | gtin8_1/main.c:388-391 | with non-negative padding, the starting point lies inside the measured box, edges included |
| Raster.PenFormula | gtin8_1/main.c:424-447 | the cursor before character k is x plus one cell per character since the last line feed, and y plus one cell per line feed |
| Raster.PaintedExtent | gtin8_1/main.c:424-447 | every painted pixel lies between x and the longest row's end, and between y and the bottom of the row after the last line feed |
| Raster.SingleLinePaintInsideMeasure | gtin8_1/main.c:379-449 | for a string without line feeds, every pixel `DrawString` paints is inside `MeasureString`'s box with padding 0 |
| Raster.MeasuredBoxOmitsLastRow | gtin8_1/main.c:391-408 | once a string has a line feed, whatever its last row paints lies on or below the measured box's bottom edge |
| UIWidgets.Djb2 | gtin8_1/main.c:303-311 | the hash of a string is a 64-bit unsigned value |
| UIWidgets.Slot | gtin8_1/main.c:544 | a widget's slot is always inside the 997-slot pool |
| UIWidgets.PushedWidget | gtin8_1/main.c:541-552 | an acquired slot has the requested flags, the stack-top colour and is live; a record with other flags is zeroed first, otherwise its text, box, clicked and toggled bits are kept |
| UIWidgets.ClearedHead | gtin8_1/main.c:536 | clearing a dead slot sets the flags to 0 and empties its C string; the text beyond the first four characters, and every other field, is unchanged |
| UIWidgets.DeadSlotKeepsToggle | gtin8_1/main.c:535-537 | a slot unused in a frame keeps its toggled bit, clicked bit and box, and a label later acquired there keeps the toggled bit |
| UIWidgets.HasPoint | gtin8_1/main.c:470-481 | a point hits a widget exactly when min ≤ point ≤ max on both axes, edges included: the fill's half-open box grown by one on its far sides |
| UIWidgets.HitTestIncludesFarCorner | gtin8_1/main.c:470-481 | the far corner of a box is a hit, but the fill of the same box does not paint it |
| UIWidgets.DoWidget | gtin8_1/main.c:554-581 | a hit makes the widget hot, and active when it is clickable and the pointer is down; a clickable widget is clicked exactly when it is hot and active with the pointer up; a toggleable one flips its toggle exactly on a click; a click outside with the pointer down clears a detoggle-on-any-click widget's toggle; non-clickable widgets keep their clicked bit |
| UIWidgets.LineEditText | gtin8_1/main.c:645-654 | the edited buffer still ends in a NUL in its last place |
| UIWidgets.LineEditEffect | gtin8_1/main.c:645-654 | a backspace drops the last character of a non-empty text; a printable character is appended only while the text is shorter than capacity − 1; anything else changes nothing; so the text never grows past that bound |
| UIWidgets.TypeAllPrintable | gtin8_1/main.c:650-653 | printable characters typed one per frame, with room for all of them, are appended in order |
| UIWidgets.LineEditScenario | gtin8_1/main.c:626-656 | with a maximum of 8 characters, typing "1234567", then '8', then '9', then backspace leaves "1234567", "12345678", "12345678", then "1234567" |
| UIWidgets.FramePixelUncovered | gtin8_1/main.c:516-538 | a pixel that no live widget's box or glyphs cover keeps its colour through a frame |
| UIWidgets.FramePixelTopmost | gtin8_1/main.c:516-538 | the last live widget in slot order that covers a pixel decides its colour: its foreground on its glyphs, otherwise its background (priority toggled, active, hot, default) |
| UIWidgets.LabelPaintsOnlyText | gtin8_1/main.c:587-588 | a widget with a single-point box paints no background, only its glyphs |
| UIEngine.HashString | gtin8_1/main.c:303-311 | the loop returns the DJB2 hash of the C string (seed 5381, `h * 33 + c` with signed `char`s, 64-bit wrap-around) reduced modulo `modulo` |
| UIEngine.WithText | gtin8_1/main.c:609 | copying text into a record keeps it well formed; its C string is the first 511 characters of the text; nothing else changes |
| UIEngine.UIState.constructor | gtin8_1/main.c:297 | the zero-initialised UI state: every slot zero, no hot or active slot, an empty colour stack |
| UIEngine.UIState.OnMouseMove | gtin8_1/main.c:976-979 | the pointer position is updated and nothing else changes |
| UIEngine.UIState.OnMouseButton | gtin8_1/main.c:981-987 | the button state is updated and nothing else changes |
| UIEngine.UIState.OnChar | gtin8_1/main.c:989-993 | a code with no bit set in 0xFF80 becomes the pending character (its low seven bits); any other code changes nothing |
| UIEngine.UIState.UIPushColour | gtin8_1/main.c:483-489 | while fewer than 255 colours sit above the base, the count rises by one, the colour is stored at the new top and the rest of the stack is unchanged; otherwise nothing changes |
| UIEngine.UIState.UIPopColour | gtin8_1/main.c:491-496 | the count falls by one unless it is 0; it stays below 256 |
| UIEngine.UIState.UIPrepare | gtin8_1/main.c:498-507 | no slot is hot, every slot is marked dead and is otherwise unchanged, and the base of the colour stack is white |
| UIEngine.UIState.UIFinish | gtin8_1/main.c:509-539 | `active` is cleared exactly when the pointer is up, the pending character is cleared, live slots are kept and dead ones lose their head, and every window pixel is what painting the live widgets in slot order makes it |
| UIEngine.UIState.FinishSlots | gtin8_1/main.c:516-538 | the loop over the pool leaves each slot finished and the window painted by all live slots in order |
| UIEngine.UIState.FinishSlot | gtin8_1/main.c:519-537 | one slot: a live widget is painted over the window, a dead record loses its head |
| UIEngine.UIState.DrawWidget | gtin8_1/main.c:521-534 | a live widget paints its text over its background box, shifted right by the padding when toggled |
| UIEngine.UIState.UIPushWidget | gtin8_1/main.c:541-552 | the slot of the identity string is acquired as `PushedWidget` says; no other slot changes |
| UIEngine.UIState.UIDoWidget | gtin8_1/main.c:554-581 | the widget, hot and active slots change as `DoWidget` says, for the current pointer; nothing else changes |
| UIEngine.UIState.UILabel | gtin8_1/main.c:583-590 | a flagless widget holding the text cut to 511 characters, with a single-point box at (x, y), then the interaction step |
| UIEngine.UIState.PlaceMeasured | gtin8_1/main.c:608-610 | the slot is acquired, takes the text and is given the box `MeasureString` computes for it |
| UIEngine.UIState.UIButton | gtin8_1/main.c:606-613 | a clickable widget sized by `MeasureString`; the result is true exactly when the button is hot and active with the pointer up |
| UIEngine.UIState.UIToggleButton | gtin8_1/main.c:615-624 | a clickable, toggleable widget sized by `MeasureString`; the result is its toggled bit, which flips exactly on a click |
| UIEngine.UIState.UILineEdit | gtin8_1/main.c:626-656 | the box has room for the capacity; after the interaction step, a toggled line edit with a pending character applies the line-edit rule to its own buffer; the returned text is that buffer's C string and is no longer than the bound |
| UIEngine.UIState.LineEditConsume | gtin8_1/main.c:645-654 | the pending character is taken into the text only while the widget is toggled and a character is pending |
| UIEngine.ButtonFrame | gtin8_1/main.c:606-613 | a frame holding only a button at the pointer reports a click exactly when the button was active before the frame and the pointer is up; the frame leaves the button active while the pointer is down, and nothing active otherwise |
| UIEngine.ButtonClickScenario | gtin8_1/main.c:554-581 | pressing and releasing inside a button: the press frame reports no click, the release frame reports one, and the frame after it reports none |
| Gtin8.CheckDigit | gtin8_1/main.c:697-701 | the check digit is 0..9 and brings the sum to a multiple of ten |
| Gtin8.CheckDigitUnique | gtin8_1/main.c:697-701 | no other digit does that |
| Gtin8.CheckDigitOf | gtin8_1/main.c:680-701 | the check digit of seven data digits, weighted 3, 1, 3, 1, 3, 1, 3, is a digit |
| Gtin8.WithCheckDigit | gtin8_1/main.c:696-704 | the generated code has eight digits: the seven data digits, then their check digit |
| Gtin8.GeneratedCodeIsValid | gtin8_1/main.c:675-742 | `GTIN8Verify` accepts every code `GTIN8FromFirst7Digits` generates |
| Gtin8.ValidCodeIsGenerated | gtin8_1/main.c:710-742 | every accepted code is the generated code of its first seven digits |
| Gtin8.ValidIffWeightedSumIsMultipleOfTen | gtin8_1/main.c:710-742 | a code is accepted exactly when it has eight digits whose weighted sum, the check digit weighing 1, is a multiple of ten |
| Gtin8.SingleDigitErrorDetected | gtin8_1/main.c:710-742 | changing any one digit of an accepted code makes it rejected |
| Gtin8.ErrorText | gtin8_1/main.c:692 | `strncpy(result, "error", 7)` leaves seven places holding the C string "error" |
| Gtin8.GTIN8FromFirst7Digits | gtin8_1/main.c:675-708 | seven digits give those digits, their check digit and a NUL; anything else gives "error", and the eighth place holds the input's terminator for a seven-character input and is unchanged otherwise |
| Gtin8.GTIN8Verify | gtin8_1/main.c:710-742 | invalid input for a length other than 8 or a non-digit among the first seven; failure when the eighth character is not the check digit; success otherwise |
| Gtin8.ReceiptItemFromGTIN8Code | gtin8_1/main.c:933-950 | place 1 for a code `GTIN8Verify` rejects; otherwise the first item whose code agrees on eight characters, or place 0 when there is none |
| WindowMessages.StringFromWindowMessage | gtin8_1/main.c:314-346 | on a non-empty table sorted by id the search terminates; it returns the name of an entry with the id when one exists, and the error text otherwise (the same function is at hangman/main.c:110-143) |
| Hangman.WrongGuesses | hangman/main.c:385-387 | the wrong guesses number at most the guesses |
| Hangman.WrongGuessesAppend | hangman/main.c:385-387 | a new guess adds one wrong guess exactly when its letter is not in the word |
| Hangman.GuessesBounded | hangman/main.c:338-341 | distinct guesses with codes below 128 number at most 128 |
| Hangman.DrawImage | hangman/main.c:180-197 | window pixel (x + i, y + j) takes image pixel (i, j) for every (i, j) in the image that lands in the 640 × 480 window; every other pixel is unchanged |
| Hangman.FillWindow | hangman/main.c:290-292 | every window pixel takes the fill colour |
| Hangman.ResetConsistent | hangman/main.c:252-258 | a reset round is consistent, in play, with 10 lives, no word and no guesses |
| Hangman.NewGuessDistinct | hangman/main.c:338-341 | appending a letter not guessed before keeps the guesses distinct and below code 128, with fewer than 128 before it |
| Hangman.OutcomeConsistent | hangman/main.c:382-392 | after a guess, lives stay in [0, 10], the game is lost exactly when none is left and won exactly when every letter of the word is guessed |
| Hangman.NextRoundConsistent | hangman/main.c:338-392 | a new guess keeps the round consistent: guesses distinct and at most 128, the display holding the masked word and its NUL, lives in [0, 10], won and lost exactly as above |
| Hangman.NextRoundAccountsLives | hangman/main.c:385-392 | a new guess keeps the lives equal to 10 minus the wrong guesses |
| Hangman.EmptyWordWinsAtOnce | hangman/main.c:349-384 | with an empty word, the first guess wins with all lives |
| Hangman.GameScenario | hangman/main.c:320-402 | on the word "ab": 'a' shows "a_", a wrong 'z' costs a life, 'b' shows "ab" and wins with nine lives |
| Hangman.LivesInRange | hangman/main.c:290-296 | a consistent round has between 0 and 10 lives, so frame `lives` of the ten artwork frames exists whenever fewer than 10 are left (frame 0 once the game is lost); a round that is not lost has at least one |
| Hangman.Game.constructor | hangman/main.c:72-91 | the initial globals: in play, 10 lives, no word, no guesses, zeroed buffers |
| Hangman.Game.ResetGame | hangman/main.c:252-262 | the globals become the reset round (no word, count 0, 10 lives, the prompt copied with `strncpy(.., 4095)`, in play); the guessed-letter array is unchanged |
| Hangman.Game.HasGuessed | hangman/main.c:326-335 | true exactly when the letter is among the letters guessed so far |
| Hangman.Game.OnChar | hangman/main.c:320-402 | outside play any character resets the game; in play, a key repeat, a code of 128 or more, or a letter already guessed changes nothing, and a new letter makes the next round and is stored at the old count |
| Hangman.Game.Guess | hangman/main.c:338-392 | a new letter gives exactly the next round of the game value, and the invariant is kept |
| Hangman.Game.ShowMasked | hangman/main.c:348-380 | the display holds the word masked by the guesses and a NUL, the rest of the buffer is unchanged, and the two flags say whether every letter is guessed and whether the letter is in the word |
| Hangman.Game.PaintArt | hangman/main.c:289-296 | with all lives the window is filled with bytes 255; otherwise artwork frame `lives` is copied at the origin |

## Left out

- Window creation, the message pump and the other cases of the window procedures (`WM_CREATE` falling through into `WM_SIZING`, `WM_SIZING`, `WM_PAINT`'s blit, `WM_QUIT`), `RefreshScreen`/`DrawWindowPixels`, `RedrawWindow`, `OutputDebugStringA` and the save dialogue: these are operating-system calls. The mouse and character inputs they deliver are method parameters.
- Inventory and receipt files: parsing, serialising, the restock export, `ReceiptPushItem`/`ReceiptClear`. They are file I/O with `double` prices. `ReceiptItemFromGTIN8Code` is modelled over the sequence of inventory codes and returns a place in it.
- Floating-point code: receipt totals and Hangman's start-up gradient.
- `RandIntNext` and `HashInt`: the seed comes from the operating system's random source. The chosen word is the parameter `chosen`.
- The contents of the font, the message table, the word list and the artwork: these are data the model takes as parameters.
- `UILabelF`: its formatted text comes from `vsnprintf`. It is `UILabel` on that text.
- The menu and screen modes of the GTIN-8 tool's main loop: these are glue over the widgets.
- The rest of Hangman's `WM_PAINT` after the artwork: drawing the word, the guessed letters and the won or lost message (built with `snprintf`). These are `DrawString` calls.
- `widgets_count` of the UI state: nothing reads or writes it.
- Characters outside 0..127: `g_font` is indexed with them. `DrawString`, `UILabel`, `UIButton` and `UIToggleButton` require ASCII text.
- Raster.DrawString, Raster.DrawRectangleFill, Hangman.DrawImage: coordinates are unbounded integers, not 32-bit ones. A pen or box position that would overflow `int` is not modelled.
- Gtin8.GTIN8Verify, Gtin8.GTIN8FromFirst7Digits, Gtin8.ReceiptItemFromGTIN8Code: each requires a NUL in its input buffer. A buffer without one would make `strlen` read past its end.
- WindowMessages.StringFromWindowMessage: the table comes from a header of message names that is not part of this model, and the program never checks its order. The model requires it sorted by id; on an unsorted table the search's answer is not described.
- WindowMessages.StringFromWindowMessage: `bottom + top` is exactly this sum only while the table has fewer than 2^30 entries, which the model requires.
- UIEngine.UIState.UILineEdit: requires `max_characters` in [0, 2^31 − 1). A negative maximum or overflow in `max_characters + 1` is not modelled.
- Hangman.Game.OnChar, Hangman.Game.Guess: the chosen word must be a C string shorter than 4096 characters (the model requires `|chosen| < 4096` and no NUL in it), because a longer one overflows `g_guessed_word` when it is copied with its terminator; the word list is not part of this model, so nothing here bounds its words.
- Hangman.Game.Guess: the lives account (lives = 10 − wrong guesses) is not part of the class invariant. It is stated about the game value by NextRoundAccountsLives, and `Game.OnChar`'s contract ties each new round to that value.
