# libxkbcommon: keyboard-shortcut matching and the Compose table layout

This project models two pieces of libxkbcommon in Dafny and proves
properties of them.

**The shortcut matcher of `test/shortcut.c`.** A shortcut table lists rows
of (modifier mask, keysym, action); a row without an action ends it. A key
press is given by a keymap, the active layout, the held modifiers and a key
code. The matcher picks the row the press triggers:

- `popcount` counts the bits of a modifier mask.
- `NEXT_FIRST` steps through the layouts of a key. It tries the active
  layout first, then every other layout in ascending order.
- `get_keysym_for_shortcut` looks for the first layout in that order whose
  keysym is not NoSymbol. When the shortcut's keysym is ASCII, the found
  keysym must be ASCII too. It reports that keysym and the modifiers the
  lookup consumed.
- `shortcut_match` does three things:
  - it requires the shortcut's modifiers to be held;
  - it looks the key up with the shortcut's own modifiers released; only
    when that lookup does not yield the shortcut's keysym does it look the
    key up again with all modifiers held;
  - it requires every significant modifier held beyond the shortcut's own
    to be consumed by the lookup that produced the keysym.
- `find_matching_shortcut` scans the table. It keeps the first matching
  row with the most modifier bits.

The library queries the matcher makes, such as the layout, keysym and
consumed modifiers of a key in a state, are fields of `Xkb.Keymap`. Each
one is a total function.

**The Compose table layout of `src/compose/table.h`.** A
`struct compose_node` holds offsets into two arrays shared by the whole
table:

- `sequence`, a 24-bit field, and `sequence_len`, an 8-bit field, name a
  run of keysyms in `sequences`;
- `utf8`, a 32-bit field, names a position in the `utf8` byte array.

The model gives each field a type bounded by its width. It states what a
store into such a field keeps. It defines a well-formed table as one whose
node offsets all point into those arrays.

Files:

- `xkb.dfy`: the `Option` wrapper, the library's types, and `Keymap`.
- `shortcuts.dfy`: the matcher, in module `Shortcuts`.
- `shortcut_rows.dfy`: rows of the shortcut table from `main` in
  `test/shortcut.c`, two small stand-in keymaps for "us" and "us,ru", and
  the outcomes the test expects for Shift+= on "us" and for Ctrl+A with the
  Russian layout active.
- `compose_table.dfy`: the Compose node and table, in module `Compose`.

Modifier masks are `bv32`. `Shortcuts.Bits(m)` is the set of bit positions
of `m`, which is the set of modifiers it holds. The contracts about the
rule state it with these sets, and lemmas connect them to the source's
mask arithmetic.

## Model

| member | source | states |
|---|---|---|
| Shortcuts.SignificantModsBits | test/shortcut.c:29-40 | The significant modifiers are bits 0, 2, 3 and 6 (Shift, Control, Alt, Super). Lock is bit 1 and is not among them. |
| Shortcuts.BitsEmptyIffZero | test/shortcut.c:139 | A mask is zero exactly when it holds no modifier. |
| Shortcuts.SubmaskIffSubset | test/shortcut.c:121 | The test `(a & b) == a` holds iff every modifier of `a` is in `b`, in both directions. |
| Shortcuts.SubmaskIsSubset | test/shortcut.c:121 | The forward direction: `(a & b) == a` implies that the modifiers of `a` are a subset of those of `b`. |
| Shortcuts.SubsetIsSubmask | test/shortcut.c:121 | The converse: a subset of modifiers implies `(a & b) == a`. |
| Shortcuts.Popcount | test/shortcut.c:54-62 | The loop over bits 0..31 returns the number of set bits of the mask, which is at most 32. |
| Shortcuts.PopcountZero | test/shortcut.c:54-62 | The empty mask has no bits. |
| Shortcuts.PopcountMonotone | test/shortcut.c:54-62 | A mask contained in another never has more bits. |
| Shortcuts.NextFirst | test/shortcut.c:64-65 | Each step moves exactly one place further along the search order that starts from `first`, so the loop never returns to `first` and never tries a layout twice. |
| Shortcuts.SearchOrderVisitsEachOnce | test/shortcut.c:64-65 | When `first < n`, the search order starts at `first` and contains each index below `n` exactly once, ascending after the first. When `first >= n` it is empty. |
| Shortcuts.NextFirstWalksSearchOrder | test/shortcut.c:64-65 | Applied to each layout of the search order, `NEXT_FIRST` gives the next one. After the last it gives `n`, so the loop of line 91 ends and its index never passes `n`. |
| Shortcuts.SearchLayoutsMeaning | test/shortcut.c:91-105 | A search over a list of layouts finds NoSymbol iff no layout is accepted, and then reports no consumed modifiers. Otherwise it reports the keysym and consumed modifiers of the first accepted layout. |
| Shortcuts.IsAscii | test/shortcut.c:48-52 | Definition, no contract: a keysym is ASCII when its Unicode value is at most 127. `Shortcuts.AsciiFilter` states what the lookup does with it. |
| Shortcuts.SearchFrom | test/shortcut.c:91-104 | The loop from layout `i` yields NoSymbol with no consumed modifiers, or else the keysym and the consumed modifiers of one layout below the key's layout count that has a symbol and passes the ASCII filter. |
| Shortcuts.SearchFromFollowsOrder | test/shortcut.c:91-99 | The `NEXT_FIRST` loop, started at the k-th layout of the search order, behaves as the search over the rest of that order. |
| Shortcuts.KeysymForShortcutSearchesInOrder | test/shortcut.c:85-105 | The lookup is the search over the key's layouts in `NEXT_FIRST` order, starting from the layout the state reports. |
| Shortcuts.KeysymForShortcut | test/shortcut.c:67-109 | A failed lookup reports NoSymbol and no consumed modifiers, as the `fail:` path sets them. |
| Shortcuts.AsciiFilter | test/shortcut.c:48-52 | For an ASCII shortcut keysym, the lookup never yields a non-ASCII keysym. For a non-ASCII one, it yields NoSymbol only if every layout tried has NoSymbol. |
| Shortcuts.GetKeysymForShortcut | test/shortcut.c:67-109 | The loop with its early exit returns the keysym and consumed modifiers of the lookup specification, or NoSymbol and 0 when no layout qualifies. |
| Shortcuts.UnconsumedIsZero | test/shortcut.c:139 | `(mods & ~own & ~consumed & SIGNIFICANT_MODS) == 0` holds iff every significant modifier held on top of `own` was consumed. |
| Shortcuts.MatchRule | test/shortcut.c:121-139 | Definition, no contract: the shortcut's modifiers are held, its keysym comes from the lookup with its own modifiers released or else from the lookup with all held, and that lookup consumed every extra significant modifier. `Shortcuts.MaskTestsDecideRule` ties it to the mask tests. |
| Shortcuts.ShortcutMatch | test/shortcut.c:111-140 | Definition, no contract: `MatchRule` applied to the two lookups of `get_keysym_for_shortcut`. `Shortcuts.ShortcutMatchIsMaskTests` and `Shortcuts.MatchShortcut` tie it to the code. |
| Shortcuts.MaskTestsDecideRule | test/shortcut.c:121-139 | The mask tests of `shortcut_match` decide the set-level rule exactly. The shortcut's modifiers must be held. The final test is applied to the lookup that found the keysym, the stripped lookup first. |
| Shortcuts.MatchShortcut | test/shortcut.c:111-140 | The result is false when the shortcut's modifiers are not held, and false when neither lookup yields the shortcut's keysym. Otherwise it is the unconsumed-modifier test on the lookup that matched. |
| Shortcuts.ShortcutMatchIsMaskTests | test/shortcut.c:111-140 | The rule `ShortcutMatch` holds iff the mask tests `shortcut_match` performs succeed on the two lookups. |
| Shortcuts.UnusedModifierRejects | test/shortcut.c:40 | A held significant modifier that is not the shortcut's own and that neither lookup consumed rejects the shortcut. Such a modifier is never Lock. |
| Shortcuts.ScanLength | test/shortcut.c:151 | The scan covers exactly the rows before the first row without an action. |
| Shortcuts.MatchesAt | test/shortcut.c:152 | Entry k of the per-row match list is the rule applied to row k. |
| Shortcuts.MatchShortcutAt | test/shortcut.c:152 | The per-row call of `shortcut_match` returns entry k of the per-row match list. |
| Shortcuts.ModCountsAt | test/shortcut.c:153-155 | Entry k of the per-row count list is the number of modifier bits of row k. |
| Shortcuts.CountModsAt | test/shortcut.c:153-155 | The per-row call of `popcount` returns entry k of the per-row count list. |
| Shortcuts.BestIsUnique | test/shortcut.c:153 | At most one row is the earliest matching row with the most bits. |
| Shortcuts.BestOf | test/shortcut.c:149-159 | The scan's choice over the first k rows, when there is one, is a matching row among them. |
| Shortcuts.BestOfMeaning | test/shortcut.c:149-159 | The scan's choice over the first k rows is NULL iff none matches. Otherwise it is a matching row with the most bits, and every earlier matching row has strictly fewer. |
| Shortcuts.BestOfSkipsUnmatched | test/shortcut.c:152 | Rows that do not match leave the scan's choice unchanged. |
| Shortcuts.ScanChoosesBestMatch | test/shortcut.c:142-160 | Over the whole table, the scan returns NULL iff no scanned row satisfies the matching rule. Otherwise it returns the earliest matching row among those with the most modifier bits. |
| Shortcuts.FindMatchingShortcut | test/shortcut.c:142-160 | The loop returns the scan's choice over the scanned rows, using the real per-row match results and bit counts. |
| ShortcutRows.TableScansSixteenRows | test/shortcut.c:211-228 | The test table's scan stops at its terminating row, after 16 rows. |
| ShortcutRows.ShiftHasMoreBitsThanNone | test/shortcut.c:29 | Shift alone has more modifier bits than the empty mask. |
| ShortcutRows.LaterRowWithMoreBitsWins | test/shortcut.c:153-156 | When rows 7 and 8 are the only matches and row 8 has more bits, the scan of 16 rows picks row 8, the later one. |
| ShortcutRows.ShiftEqualBeatsZoomIn | test/shortcut.c:260 | When exactly "ZoomIn" and "ShiftEqual" match, with their own bit counts, the scan picks "ShiftEqual". |
| ShortcutRows.UsEqualLookup | test/shortcut.c:260 | On the stand-in US keymap, the `=` key looks up `plus` with Shift held and `equal` without, consuming Shift. |
| ShortcutRows.UsShiftEqualMatches | test/shortcut.c:260 | Shift+= on the US keymap matches a shortcut iff it is unmodified `plus`, or `equal` or `plus` with Shift. |
| ShortcutRows.UsShiftEqualMatchesRows | test/shortcut.c:211-228 | Of the test table's rows, Shift+= on the US keymap matches rows 7 ("ZoomIn") and 8 ("ShiftEqual") and no other. |
| ShortcutRows.UsShiftEqualSelectsShiftEqual | test/shortcut.c:260 | The scan over the test table, with the match list and bit counts the model computes, picks row 8, "ShiftEqual". |
| ShortcutRows.ShiftEqualOnUs | test/shortcut.c:260 | `find_matching_shortcut` on Shift+= with the US keymap reports the action "ShiftEqual". |
| ShortcutRows.UsRuALookup | test/shortcut.c:291 | With layout 1 of "us,ru" active, the `A` key gives Cyrillic ef to a non-ASCII shortcut; an ASCII shortcut falls back to layout 0 and gets `a` (or `A` with Shift). Shift and Lock are consumed. |
| ShortcutRows.UsRuCtrlAMatches | test/shortcut.c:291 | Ctrl+A on layout 1 of "us,ru" matches a shortcut iff it asks for Ctrl and its keysym is `a` when ASCII, or Cyrillic ef otherwise. |
| ShortcutRows.UsRuCtrlAMatchesRows | test/shortcut.c:211-228 | Of the test table's rows, Ctrl+A on layout 1 of "us,ru" matches row 0 ("SelectAll") and no other. |
| ShortcutRows.UsRuCtrlASelectsSelectAll | test/shortcut.c:291 | The scan over the test table picks row 0, "SelectAll", for Ctrl+A with the Russian layout active. |
| ShortcutRows.CtrlAOnUsRu | test/shortcut.c:291 | `find_matching_shortcut` on Ctrl+A with layout 1 of "us,ru" reports the action "SelectAll". |
| Compose.Wrap | src/compose/table.h:33-35 | A field of `limit` values keeps a stored value exactly when it is below `limit`. Otherwise it keeps something smaller. |
| Compose.Store24 | src/compose/table.h:33 | The 24-bit `sequence` field keeps a stored value iff it is below 2^24. |
| Compose.Store8 | src/compose/table.h:34 | The 8-bit `sequence_len` field keeps a stored value iff it is at most 255. |
| Compose.Store32 | src/compose/table.h:35 | The 32-bit `utf8` field keeps a stored value iff it is below 2^32. |
| Compose.MakeNodeKeepsFieldsIff | src/compose/table.h:31-38 | A node keeps its offsets and its length iff they fit their fields. It always keeps its keysym. |
| Compose.NodeSequence | src/compose/table.h:32-34 | A node's keysyms resolve iff the node exists and `[sequence, sequence + sequence_len)` lies within `sequences`. They are then exactly the `sequence_len` keysyms found there. |
| Compose.NodeUtf8 | src/compose/table.h:35 | A node's text resolves iff the node exists and its offset is a position of `utf8`. It is then the non-empty tail of `utf8` from that offset. |
| Compose.Valid | src/compose/table.h:48-50 | Definition, no contract: every node's keysym run lies within `sequences` and its text offset is a position of `utf8`. `Compose.ValidIffEveryNodeResolves` restates it through the accessors. |
| Compose.ValidIffEveryNodeResolves | src/compose/table.h:48-50 | A table is well formed iff every node's keysyms and text resolve. |
| Compose.AddNodeKeepsValid | src/compose/table.h:48 | Adding an in-bounds node keeps the table well formed. The new node resolves, and earlier nodes resolve as before. |
| Compose.GrowStoresKeepsValid | src/compose/table.h:49-50 | Appending to `sequences` and `utf8` keeps the table well formed. Every node keeps its keysyms, and its text only gains a tail. |

## Left out

- `xkb_state_new` can fail to allocate (`test/shortcut.c:81-83`). The model has no failing lookup, so a lookup always searches the layouts.
- The library calls are not modelled; they are fields of `Xkb.Keymap`. This covers `xkb_state_update_mask`, `xkb_state_key_get_layout`, `xkb_state_key_get_one_sym`, `xkb_state_key_get_consumed_mods`, `xkb_keymap_num_layouts_for_key` and `xkb_keysym_to_utf32`. `xkb_state_unref` is only cleanup and is not modelled. The library is not part of this model.
- The harness is not modelled: `test_shortcuts`, its diagnostics, and `main`'s keymap compilation (`test/shortcut.c:162-336`). Two of its expected outcomes are proved in `shortcut_rows.dfy`: Shift+= on "us" (`test/shortcut.c:260`) and Ctrl+A on layout 1 of "us,ru" (`test/shortcut.c:291`). The keymaps they use are written out by hand, not compiled from the xkeyboard-config rules, and give symbols only to the `=` and `A` keys; the other expected outcomes of the test are not stated.
- Keysyms, key codes and layout indices are unbounded naturals, where the library uses unsigned 32-bit types. The layout loop never computes an index above the number of layouts (`Shortcuts.NextFirstWalksSearchOrder`), so no wrap-around is lost. `XKB_LAYOUT_INVALID` is a number no smaller than the layout count, so the search is empty.
- Shortcuts.FindMatchingShortcut: the C loop advances through the array until a row with a NULL action. The model's table is a sequence, so the scan also stops at its end if no such row exists. The C code would read past the array there.
- Shortcuts.FindMatchingShortcut: the source computes `popcount` twice for a new best row; the model computes it once. `popcount` is pure, so the result is the same.
- The `refcnt`, `format`, `flags`, `ctx` and `locale` fields of `struct xkb_compose_table` are not modelled. They are lifecycle and context bookkeeping that the header gives no behaviour for.
- The Compose rule-file parser, table builder and runtime matcher are not part of this model. Only their shared data layout (`src/compose/table.h`) is.
- Compose.NodeUtf8: a node's `utf8` is a single offset into the byte array, not an (offset, length) pair. The text a node points at is therefore the tail of the array from that offset. Where its string ends (a terminating NUL byte, by C convention) is up to the builder, which is not modelled.
