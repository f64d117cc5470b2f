/** The optional-value wrapper used for NULL results and "not found" results. */
module Wrappers {
  datatype Option<+T> = None | Some(value: T)
}

/**
  The types the library's public header declares, and the keymap queries the
  shortcut matcher makes of the library. The library itself is not part of this
  model: each query it answers is a total function carried by a `Keymap` value.
 */
module Xkb {
  /**
    `xkb_keysym_t`: a keyboard symbol code. The library's type is unsigned
    32-bit; the model only compares keysyms for equality, so it uses naturals.
   */
  type Keysym = nat
  /** `xkb_keycode_t`: a physical key code, only ever passed on unchanged. */
  type Keycode = nat
  /**
    `xkb_layout_index_t`: the index of a layout (group) of the keymap. The
    library's type is unsigned 32-bit; the model uses unbounded naturals,
    and the layout search never computes an index above the number of
    layouts of the key, so no wrap-around can arise.
   */
  type LayoutIndex = nat
  /** `xkb_mod_mask_t`: a set of modifiers, one per bit. */
  type ModMask = bv32

  /** `XKB_KEY_NoSymbol`: the keysym meaning "no symbol". */
  const NO_SYMBOL: Keysym := 0

  /**
    What the shortcut matcher asks of a compiled keymap and of the library.

    - `numLayoutsForKey(k)`: `xkb_keymap_num_layouts_for_key`.
    - `keyLayout(mods, layout, k)`: the layout `xkb_state_key_get_layout` reports
      for key `k` once a state's depressed modifiers are `mods` and its locked
      layout is `layout` (it may be any value, `XKB_LAYOUT_INVALID` included).
    - `keySym(mods, layout, k)`: `xkb_state_key_get_one_sym` in that state.
    - `consumedMods(mods, layout, k)`: `xkb_state_key_get_consumed_mods` in that state.
    - `keysymToUtf32(ks)`: `xkb_keysym_to_utf32`.
   */
  datatype Keymap = Keymap(
    numLayoutsForKey: Keycode -> LayoutIndex,
    keyLayout: (ModMask, LayoutIndex, Keycode) -> LayoutIndex,
    keySym: (ModMask, LayoutIndex, Keycode) -> Keysym,
    consumedMods: (ModMask, LayoutIndex, Keycode) -> ModMask,
    keysymToUtf32: Keysym -> nat
  )
}
