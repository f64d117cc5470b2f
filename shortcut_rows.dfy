/**
  Rows of the shortcut table the matcher is exercised with, two small
  keymaps standing in for the "us" and "us,ru" keymaps the test compiles,
  and the outcomes the test expects for Shift+= and for Ctrl+A.

  The keymaps are not compiled from rules here: they are written out, and
  only the keys the lemmas press are given symbols. Keysym codes are those of
  the X11 keysym table, and key codes are evdev codes plus 8, as the test
  passes them.
 */
module ShortcutRows {
  import opened Wrappers
  import opened Xkb
  import opened Shortcuts

  const KEY_a: Keysym := 0x61
  const KEY_Tab: Keysym := 0xff09
  const KEY_BackSpace: Keysym := 0xff08
  const KEY_minus: Keysym := 0x2d
  const KEY_equal: Keysym := 0x3d
  const KEY_plus: Keysym := 0x2b
  const KEY_F1: Keysym := 0xffbe
  const KEY_F4: Keysym := 0xffc1
  const KEY_Break: Keysym := 0xff6b
  const KEY_dollar: Keysym := 0x24
  const KEY_semicolon: Keysym := 0x3b
  const KEY_A: Keysym := 0x41
  const KEY_Cyrillic_ef: Keysym := 0x6c6

  /** The key codes of the `=` and `A` keys (evdev 13 and 30, plus 8). */
  const KEYCODE_EQUAL: Keycode := 21
  const KEYCODE_A: Keycode := 38

  /** The shortcut table, ending with its terminating row. */
  const TABLE: seq<Shortcut> := [
    Shortcut(CTRL, KEY_a, Some("SelectAll")),
    Shortcut(ALT, KEY_Tab, Some("NextWindow")),
    Shortcut(SHIFT | ALT, KEY_Tab, Some("PrevWindow")),
    Shortcut(CTRL, KEY_BackSpace, Some("DeleteWord")),
    Shortcut(CTRL | ALT, KEY_BackSpace, Some("Terminate")),
    Shortcut(0, KEY_minus, Some("ZoomOut")),
    Shortcut(0, KEY_equal, Some("Equal")),
    Shortcut(0, KEY_plus, Some("ZoomIn")),
    Shortcut(SHIFT, KEY_equal, Some("ShiftEqual")),
    Shortcut(0, KEY_F1, Some("Help")),
    Shortcut(ALT, KEY_F4, Some("CloseWindow")),
    Shortcut(CTRL | ALT, KEY_F4, Some("SwitchVT4")),
    Shortcut(0, KEY_Break, Some("Break")),
    Shortcut(CTRL, KEY_Break, Some("CtrlBreak")),
    Shortcut(SHIFT, KEY_dollar, Some("ShiftDollar")),
    Shortcut(SHIFT, KEY_semicolon, Some("ShiftSemicolon")),
    Shortcut(0, NO_SYMBOL, None)
  ]

  /** The scan stops at the terminating row, the seventeenth. */
  lemma TableScansSixteenRows()
    ensures ScanLength(TABLE) == 16
  {
    assert forall j :: 0 <= j < 16 ==> TABLE[j].action.Some?;
    assert TABLE[16].action.None?;
  }

  /**
    `xkb_keysym_to_utf32` on the keysyms used here: Latin-1 keysyms are their
    own code point, BackSpace and Tab are control characters, Cyrillic ef is
    U+0444, and keysyms without a character (function keys, Break) give 0.
   */
  function Utf32(ks: Keysym): nat
  {
    if ks < 0x100 then ks
    else if ks == KEY_BackSpace then 8
    else if ks == KEY_Tab then 9
    else if ks == KEY_Cyrillic_ef then 0x444
    else 0
  }

  /**
    The symbols of the US layout: `=` gives `plus` with Shift and `equal`
    without, `A` gives `A` with Shift and `a` without. Other keys give nothing.
   */
  function UsSym(mods: ModMask, layout: LayoutIndex, key: Keycode): Keysym
  {
    if key == KEYCODE_EQUAL then (if mods & SHIFT != 0 then KEY_plus else KEY_equal)
    else if key == KEYCODE_A then (if mods & SHIFT != 0 then KEY_A else KEY_a)
    else NO_SYMBOL
  }

  /** Layout 0 is the US layout; on layout 1 the `A` key gives Cyrillic ef. */
  function UsRuSym(mods: ModMask, layout: LayoutIndex, key: Keycode): Keysym
  {
    if layout == 1 && key == KEYCODE_A then KEY_Cyrillic_ef
    else UsSym(mods, layout, key)
  }

  /**
    The modifiers a press consumes: both keys have Shift-selected levels, so
    they consume Shift; letter keys consume Lock as well.
   */
  function Consumed(mods: ModMask, layout: LayoutIndex, key: Keycode): ModMask
  {
    if key == KEYCODE_EQUAL then SHIFT
    else if key == KEYCODE_A then SHIFT | LOCK
    else 0
  }

  /** A keymap with the one layout "us". */
  const US: Keymap := Keymap(key => 1, (mods, layout, key) => 0, UsSym, Consumed, Utf32)

  /** A keymap with the two layouts "us,ru"; the state reports the locked layout when there is one. */
  const US_RU: Keymap := Keymap(key => 2, (mods, layout, key) => if layout < 2 then layout else 0,
                                UsRuSym, Consumed, Utf32)

  /** On the US keymap, the `=` key looks up `plus` when Shift is held and `equal` otherwise, consuming Shift. */
  lemma UsEqualLookup(s: Shortcut, mods: ModMask)
    ensures KeysymForShortcut(s, US, 0, mods, KEYCODE_EQUAL)
              == Lookup(if mods & SHIFT != 0 then KEY_plus else KEY_equal, SHIFT)
  {
  }

  /**
    Shift+= on the US keymap matches a shortcut exactly when it is `plus`
    without modifiers, or `equal` or `plus` with Shift.
   */
  lemma UsShiftEqualMatches(s: Shortcut)
    ensures ShortcutMatch(s, US, 0, SHIFT, KEYCODE_EQUAL) <==>
              || (s.mods == 0 && s.keysym == KEY_plus)
              || (s.mods == SHIFT && (s.keysym == KEY_equal || s.keysym == KEY_plus))
  {
    UsEqualLookup(s, SHIFT & !s.mods);
    UsEqualLookup(s, SHIFT);
    ShortcutMatchIsMaskTests(s, US, 0, SHIFT, KEYCODE_EQUAL);
  }

  /** Shift alone asks for more modifier bits than no modifier at all. */
  lemma ShiftHasMoreBitsThanNone()
    ensures |Bits(0)| < |Bits(SHIFT)|
  {
    BitsEmptyIffZero(0);
    assert 0 in Bits(SHIFT) by {
      assert (0 as bv32) in Below(32);
    }
  }

  /**
    Over the sixteen scanned rows, when rows 7 and 8 are the only matches and
    row 8 asks for more modifier bits, the scan settles on row 8.
   */
  lemma LaterRowWithMoreBitsWins(counts: seq<nat>, matched: seq<bool>)
    requires |counts| == |matched| == 17
    requires forall j :: 0 <= j < |matched| ==> (matched[j] <==> j == 7 || j == 8)
    requires counts[7] < counts[8]
    ensures BestOf(counts, matched, 16) == Some(8)
  {
    BestOfSkipsUnmatched(counts, matched, 0, 7);
    assert BestOf(counts, matched, 8) == Some(7);
    assert BestOf(counts, matched, 9) == Some(8);
    BestOfSkipsUnmatched(counts, matched, 9, 16);
  }

  /**
    When exactly "ZoomIn" and "ShiftEqual" match, the scan settles on
    "ShiftEqual": it has one modifier bit and "ZoomIn" none. Only the bit
    counts of the two matching rows matter, so only those are given.
   */
  lemma ShiftEqualBeatsZoomIn(counts: seq<nat>, matched: seq<bool>)
    requires |counts| == |matched| == |TABLE|
    requires forall j :: 0 <= j < |matched| ==> (matched[j] <==> j == 7 || j == 8)
    requires counts[7] == |Bits(TABLE[7].mods)| && counts[8] == |Bits(TABLE[8].mods)|
    ensures BestOf(counts, matched, ScanLength(TABLE)) == Some(8)
    ensures TABLE[8].action == Some("ShiftEqual")
  {
    ShiftHasMoreBitsThanNone();
    TableScansSixteenRows();
    LaterRowWithMoreBitsWins(counts, matched);
  }

  /** Of the table's rows, Shift+= on the US keymap matches "ZoomIn" and "ShiftEqual" only. */
  lemma UsShiftEqualMatchesRows(j: nat)
    requires j < |TABLE|
    ensures ShortcutMatch(TABLE[j], US, 0, SHIFT, KEYCODE_EQUAL) <==> j == 7 || j == 8
  {
    var s := TABLE[j];
    UsShiftEqualMatches(s);
    if j < 6 {
      assert s.keysym != KEY_plus && s.keysym != KEY_equal;
    } else if j == 6 {
      assert s.mods == 0 && s.keysym == KEY_equal;
    } else if 8 < j {
      assert s.keysym != KEY_plus && s.keysym != KEY_equal;
    }
  }

  /**
    Shift+= on the US keymap (test/shortcut.c, the "ShiftEqual" entry):
    the scan over the table settles on row 8, "ShiftEqual", over the
    unmodified "ZoomIn" that `plus` also matches.
   */
  lemma UsShiftEqualSelectsShiftEqual()
    ensures var b := BestOf(ModCounts(TABLE), Matches(TABLE, US, 0, SHIFT, KEYCODE_EQUAL), ScanLength(TABLE));
      b == Some(8) && TABLE[b.value].action == Some("ShiftEqual")
  {
    var matched := Matches(TABLE, US, 0, SHIFT, KEYCODE_EQUAL);
    var counts := ModCounts(TABLE);
    forall j | 0 <= j < |matched| ensures matched[j] <==> j == 7 || j == 8 {
      MatchesAt(TABLE, US, 0, SHIFT, KEYCODE_EQUAL, j);
      UsShiftEqualMatchesRows(j);
    }
    ModCountsAt(TABLE, 7);
    ModCountsAt(TABLE, 8);
    ShiftEqualBeatsZoomIn(counts, matched);
  }

  /**
    On the "us,ru" keymap with layout 1 active, the `A` key gives Cyrillic
    ef. A shortcut on an ASCII keysym is looked up on the US layout instead,
    where the key gives `a` (or `A` with Shift); any other shortcut takes
    Cyrillic ef from layout 1.
   */
  lemma UsRuALookup(s: Shortcut, mods: ModMask)
    ensures KeysymForShortcut(s, US_RU, 1, mods, KEYCODE_A)
              == if IsAscii(US_RU, s.keysym) then Lookup(if mods & SHIFT != 0 then KEY_A else KEY_a, SHIFT | LOCK)
                 else Lookup(KEY_Cyrillic_ef, SHIFT | LOCK)
  {
    assert NextFirst(1, 1) == 0;
  }

  /**
    Ctrl+A on the "us,ru" keymap with layout 1 active matches a shortcut
    exactly when it asks for Ctrl and is on `a`, or on Cyrillic ef when its
    keysym is not ASCII.
   */
  lemma UsRuCtrlAMatches(s: Shortcut)
    ensures ShortcutMatch(s, US_RU, 1, CTRL, KEYCODE_A) <==>
              s.mods == CTRL && s.keysym == (if IsAscii(US_RU, s.keysym) then KEY_a else KEY_Cyrillic_ef)
  {
    UsRuALookup(s, CTRL & !s.mods);
    UsRuALookup(s, CTRL);
    ShortcutMatchIsMaskTests(s, US_RU, 1, CTRL, KEYCODE_A);
  }

  /** Of the table's rows, Ctrl+A on layout 1 of "us,ru" matches "SelectAll" only. */
  lemma UsRuCtrlAMatchesRows(j: nat)
    requires j < |TABLE|
    ensures ShortcutMatch(TABLE[j], US_RU, 1, CTRL, KEYCODE_A) <==> j == 0
  {
    var s := TABLE[j];
    UsRuCtrlAMatches(s);
    assert IsAscii(US_RU, s.keysym);
    if j != 0 {
      assert s.mods != CTRL || s.keysym != KEY_a;
    }
  }

  /**
    Ctrl+A with the Russian layout active (test/shortcut.c, the "us,ru"
    "SelectAll" entry): the shortcut on Latin `a` still fires, because its
    keysym is ASCII and the lookup falls back to the US layout.
   */
  lemma UsRuCtrlASelectsSelectAll()
    ensures var b := BestOf(ModCounts(TABLE), Matches(TABLE, US_RU, 1, CTRL, KEYCODE_A), ScanLength(TABLE));
      b == Some(0) && TABLE[b.value].action == Some("SelectAll")
  {
    var matched := Matches(TABLE, US_RU, 1, CTRL, KEYCODE_A);
    var counts := ModCounts(TABLE);
    forall j | 0 <= j < |matched| ensures matched[j] <==> j == 0 {
      MatchesAt(TABLE, US_RU, 1, CTRL, KEYCODE_A, j);
      UsRuCtrlAMatchesRows(j);
    }
    assert BestOf(counts, matched, 1) == Some(0);
    BestOfSkipsUnmatched(counts, matched, 1, 16);
    TableScansSixteenRows();
  }

  /** The action `find_matching_shortcut` reports for Shift+= on the US keymap: "ShiftEqual". */
  method ShiftEqualOnUs() returns (action: Option<string>)
    ensures action == Some("ShiftEqual")
  {
    var best := FindMatchingShortcut(TABLE, US, 0, SHIFT, KEYCODE_EQUAL);
    UsShiftEqualSelectsShiftEqual();
    action := if best.Some? then TABLE[best.value].action else None;
  }

  /** The action `find_matching_shortcut` reports for Ctrl+A on layout 1 of "us,ru": "SelectAll". */
  method CtrlAOnUsRu() returns (action: Option<string>)
    ensures action == Some("SelectAll")
  {
    var best := FindMatchingShortcut(TABLE, US_RU, 1, CTRL, KEYCODE_A);
    UsRuCtrlASelectsSelectAll();
    action := if best.Some? then TABLE[best.value].action else None;
  }
}
