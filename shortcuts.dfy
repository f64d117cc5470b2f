/**
  The keyboard-shortcut matching rule: given a table of shortcuts (modifiers,
  keysym, action), the active layout, the active modifiers and a key code, it
  decides which shortcut the key press triggers.

  The keymap queries are those of `Xkb.Keymap`; everything else is here:
  bit counting, the order in which layouts are searched, the per-shortcut
  test and the choice of the best matching shortcut.
 */
module Shortcuts {
  import opened Wrappers
  import opened Xkb

  // The modifier bits of the core keymap.
  const SHIFT: ModMask := 1
  const LOCK: ModMask := 2
  const CTRL: ModMask := 4
  const ALT: ModMask := 8
  const SUPER: ModMask := 64

  /** The modifiers that must not be held without being used (Lock is not one). */
  const SIGNIFICANT_MODS: ModMask := SHIFT | CTRL | ALT | SUPER

  /** One row of a shortcut table; a row whose action is `None` ends the table. */
  datatype Shortcut = Shortcut(mods: ModMask, keysym: Keysym, action: Option<string>)

  /** The result of one keysym lookup: the keysym and the modifiers it consumed. */
  datatype Lookup = Lookup(keysym: Keysym, consumed: ModMask)

  /*********************************************************************
   * Modifier masks as sets of bit positions
   *********************************************************************/

  /** Bit `i` of `m` is set, for a position below 32. */
  predicate Bit(m: ModMask, i: bv32)
  {
    i < 32 && (m >> i) & 1 == 1
  }

  /** The source's test of bit `i`, `mask & (1u << i)`. */
  lemma BitTest(m: ModMask, i: bv32)
    requires i < 32
    ensures (m & (1 << i) != 0) == Bit(m, i)
  {
  }

  lemma BitOfAnd(a: ModMask, b: ModMask, i: bv32)
    ensures Bit(a & b, i) <==> Bit(a, i) && Bit(b, i)
  {
  }

  lemma BitOfComplement(a: ModMask, i: bv32)
    requires i < 32
    ensures Bit(!a, i) <==> !Bit(a, i)
  {
  }

  lemma BitOfAndNot(a: ModMask, b: ModMask, i: bv32)
    requires i < 32
    ensures Bit(a & !b, i) <==> Bit(a, i) && !Bit(b, i)
  {
  }

  /** The bit positions `0 .. k-1`. */
  ghost function Below(k: bv32): (r: set<bv32>)
    requires k <= 32
    ensures forall i :: i in r <==> i < k
    decreases k as int
  {
    if k == 0 then {} else Below(k - 1) + {k - 1}
  }

  /** The positions of the set bits of `m` that lie below `k`. */
  ghost function BitsBelow(m: ModMask, k: bv32): set<bv32>
    requires k <= 32
  {
    set i | i in Below(k) && Bit(m, i)
  }

  /** The set of bits of a mask: the modifiers it holds. */
  ghost function Bits(m: ModMask): set<bv32>
  {
    BitsBelow(m, 32)
  }

  lemma BitsBelowStep(m: ModMask, k: bv32)
    requires k < 32
    ensures BitsBelow(m, k + 1) == BitsBelow(m, k) + (if Bit(m, k) then {k} else {})
    ensures k !in BitsBelow(m, k)
  {
  }

  /** A mask whose bits below `k` are all clear has no bit set below `k`. */
  lemma {:induction false} LowBitsClear(a: ModMask, k: bv32)
    requires k <= 32
    requires BitsBelow(a, k) == {}
    ensures a & (if k == 32 then 0xFFFF_FFFF else (1 << k) - 1) == 0
    decreases k as int
  {
    if k > 0 {
      assert BitsBelow(a, k - 1) <= BitsBelow(a, k);
      LowBitsClear(a, k - 1);
      assert k - 1 in Below(k);
      assert !Bit(a, k - 1);
    }
  }

  /** A mask is zero exactly when it holds no bit. */
  lemma BitsEmptyIffZero(a: ModMask)
    ensures Bits(a) == {} <==> a == 0
  {
    if Bits(a) == {} {
      LowBitsClear(a, 32);
    }
  }

  lemma RestClearIsSubmask(a: ModMask, b: ModMask)
    requires a & !b == 0
    ensures a & b == a
  {
  }

  lemma SubmaskIsSubset(a: ModMask, b: ModMask)
    requires a & b == a
    ensures Bits(a) <= Bits(b)
  {
  }

  lemma SubsetIsSubmask(a: ModMask, b: ModMask)
    requires Bits(a) <= Bits(b)
    ensures a & b == a
  {
    forall i | i in Below(32) ensures !Bit(a & !b, i) {
      BitOfAndNot(a, b, i);
      if Bit(a, i) {
        assert i in Bits(a);
      }
    }
    assert Bits(a & !b) == {};
    BitsEmptyIffZero(a & !b);
    RestClearIsSubmask(a, b);
  }

  /** `(a & b) == a`, the source's subset test, means that every bit of `a` is in `b`. */
  lemma SubmaskIffSubset(a: ModMask, b: ModMask)
    ensures (a & b == a) <==> Bits(a) <= Bits(b)
  {
    if a & b == a {
      SubmaskIsSubset(a, b);
    }
    if Bits(a) <= Bits(b) {
      SubsetIsSubmask(a, b);
    }
  }

  /** The significant modifiers are Shift, Control, Mod1 (Alt) and Mod4 (Super); Lock is not among them. */
  lemma SignificantModsBits()
    ensures Bits(SIGNIFICANT_MODS) == {0, 2, 3, 6}
    ensures Bits(LOCK) == {1} && 1 !in Bits(SIGNIFICANT_MODS)
  {
    assert 0 in Below(32) && 1 in Below(32) && 2 in Below(32) && 3 in Below(32) && 6 in Below(32);
  }

  /*********************************************************************
   * Bit counting
   *********************************************************************/

  /** `popcount`: the number of set bits among bits 0..31 of `mask`. */
  method Popcount(mask: ModMask) returns (count: nat)
    ensures count == |Bits(mask)|
    ensures count <= 32
  {
    count := 0;
    var i: bv32 := 0;
    while i < 32
      invariant i <= 32
      invariant count == |BitsBelow(mask, i)| && count <= i as int
      decreases 32 - i as int
    {
      BitsBelowStep(mask, i);
      BitTest(mask, i);
      if mask & (1 << i) != 0 {
        count := count + 1;
      }
      i := i + 1;
    }
  }

  /** A subset is no larger than its superset. */
  lemma SubsetCardinality<T>(a: set<T>, b: set<T>)
    requires a <= b
    ensures |a| <= |b|
  {
    assert b == a + (b - a);
  }

  /** No modifier, no bits. */
  lemma PopcountZero()
    ensures |Bits(0)| == 0
  {
  }

  /** A shortcut whose modifiers include another's never has fewer bits. */
  lemma PopcountMonotone(a: ModMask, b: ModMask)
    requires a & b == a
    ensures |Bits(a)| <= |Bits(b)|
  {
    SubmaskIffSubset(a, b);
    SubsetCardinality(Bits(a), Bits(b));
  }

  /*********************************************************************
   * The order in which layouts are searched
   *********************************************************************/

  /**
    `NEXT_FIRST(i, first)`, in unbounded arithmetic. Each step moves one place
    further along the search order that starts from `first`, so the step never
    returns to `first` and never revisits a layout.
   */
  function NextFirst(i: nat, first: nat): (next: nat)
    ensures SearchRank(next, first) == SearchRank(i, first) + 1
  {
    if i == first && first != 0 then 0
    else if i + 1 == first then first + 1
    else i + 1
  }

  /** The layouts to try, in order: `first`, then every other index below `n`, ascending. */
  function SearchOrder(first: LayoutIndex, n: LayoutIndex): seq<LayoutIndex>
  {
    if first < n then
      [first] + seq(n - 1, j requires 0 <= j < n - 1 => if j < first then j else j + 1)
    else []
  }

  /** The search order visits `first` first, then each other index below `n` once, ascending; nothing if `first >= n`. */
  lemma SearchOrderVisitsEachOnce(first: LayoutIndex, n: LayoutIndex)
    ensures first >= n ==> SearchOrder(first, n) == []
    ensures first < n ==> |SearchOrder(first, n)| == n && SearchOrder(first, n)[0] == first
    ensures forall l: LayoutIndex :: l in SearchOrder(first, n) <==> first < n && l < n
    ensures forall a, b :: 0 <= a < b < |SearchOrder(first, n)| ==> SearchOrder(first, n)[a] != SearchOrder(first, n)[b]
    ensures forall a, b :: 1 <= a < b < |SearchOrder(first, n)| ==> SearchOrder(first, n)[a] < SearchOrder(first, n)[b]
  {
    var order := SearchOrder(first, n);
    if first < n {
      forall l: LayoutIndex | l < n ensures l in order {
        if l < first {
          assert order[l + 1] == l;
        } else if l > first {
          assert order[l] == l;
        } else {
          assert order[0] == l;
        }
      }
    }
  }

  /**
    Stepping with `NEXT_FIRST` from `first` walks exactly the search order and
    leaves it at `n`, so the source's loop stops after the last layout and its
    index never goes past `n` (no unsigned wrap-around).
   */
  lemma NextFirstWalksSearchOrder(first: LayoutIndex, n: LayoutIndex, k: nat)
    requires k < |SearchOrder(first, n)|
    ensures NextFirst(SearchOrder(first, n)[k], first) ==
              if k + 1 < |SearchOrder(first, n)| then SearchOrder(first, n)[k + 1] else n as nat
  {
  }

  /*********************************************************************
   * Looking up the keysym of a shortcut's key
   *********************************************************************/

  /** `keysym_is_ascii`: the keysym's Unicode value is at most 127. */
  predicate IsAscii(km: Keymap, ks: Keysym)
  {
    km.keysymToUtf32(ks) <= 127
  }

  /** The search stops at layout `l`: it yields a symbol that passes the ASCII filter. */
  predicate Accepts(km: Keymap, shouldBeAscii: bool, mods: ModMask, keycode: Keycode, l: LayoutIndex)
  {
    var ks := km.keySym(mods, l, keycode);
    ks != NO_SYMBOL && (!shouldBeAscii || IsAscii(km, ks))
  }

  /**
    The lookup over the layouts of `order`, tried in turn: the keysym of the
    first one the search accepts and the modifiers it consumed, or NoSymbol
    and no modifiers.
   */
  function SearchLayouts(km: Keymap, shouldBeAscii: bool, mods: ModMask, keycode: Keycode,
                         order: seq<LayoutIndex>): Lookup
  {
    if order == [] then Lookup(NO_SYMBOL, 0)
    else if Accepts(km, shouldBeAscii, mods, keycode, order[0]) then
      Lookup(km.keySym(mods, order[0], keycode), km.consumedMods(mods, order[0], keycode))
    else SearchLayouts(km, shouldBeAscii, mods, keycode, order[1..])
  }

  /** The search reports the first accepted layout of `order`, or NoSymbol with no consumed modifiers when there is none. */
  lemma {:induction false} SearchLayoutsMeaning(km: Keymap, shouldBeAscii: bool, mods: ModMask, keycode: Keycode,
                                               order: seq<LayoutIndex>)
    ensures var r := SearchLayouts(km, shouldBeAscii, mods, keycode, order);
            && (r.keysym == NO_SYMBOL <==> forall j :: 0 <= j < |order| ==> !Accepts(km, shouldBeAscii, mods, keycode, order[j]))
            && (r.keysym == NO_SYMBOL ==> r.consumed == 0)
            && (r.keysym != NO_SYMBOL ==>
                  exists k :: 0 <= k < |order|
                    && Accepts(km, shouldBeAscii, mods, keycode, order[k])
                    && (forall j :: 0 <= j < k ==> !Accepts(km, shouldBeAscii, mods, keycode, order[j]))
                    && r == Lookup(km.keySym(mods, order[k], keycode), km.consumedMods(mods, order[k], keycode)))
  {
    if order != [] && !Accepts(km, shouldBeAscii, mods, keycode, order[0]) {
      var rest := order[1..];
      SearchLayoutsMeaning(km, shouldBeAscii, mods, keycode, rest);
      var r := SearchLayouts(km, shouldBeAscii, mods, keycode, rest);
      if r.keysym != NO_SYMBOL {
        var k :| 0 <= k < |rest|
                 && Accepts(km, shouldBeAscii, mods, keycode, rest[k])
                 && (forall j :: 0 <= j < k ==> !Accepts(km, shouldBeAscii, mods, keycode, rest[j]))
                 && r == Lookup(km.keySym(mods, rest[k], keycode), km.consumedMods(mods, rest[k], keycode));
        assert order[k + 1] == rest[k];
        assert forall j :: 0 <= j < k + 1 ==> !Accepts(km, shouldBeAscii, mods, keycode, order[j]) by {
          forall j | 0 < j < k + 1 ensures !Accepts(km, shouldBeAscii, mods, keycode, order[j]) {
            assert order[j] == rest[j - 1];
          }
        }
      } else {
        forall j | 0 < j < |order| ensures !Accepts(km, shouldBeAscii, mods, keycode, order[j]) {
          assert order[j] == rest[j - 1];
        }
      }
    }
  }

  /** The layouts the lookup tries for `keycode` when the requested layout is `layout`. */
  function LayoutsToTry(km: Keymap, layout: LayoutIndex, mods: ModMask, keycode: Keycode): seq<LayoutIndex>
  {
    SearchOrder(km.keyLayout(mods, layout, keycode), km.numLayoutsForKey(keycode))
  }

  /** The place of layout `i` in the search order that starts from `first`. */
  function SearchRank(i: LayoutIndex, first: LayoutIndex): nat
  {
    if i == first then 0 else if i < first then i + 1 else i
  }

  /**
    The loop of `get_keysym_for_shortcut` from layout `i` on: step with
    `NEXT_FIRST` while the index is below `n`, and stop at the first layout
    the search accepts.
   */
  function SearchFrom(km: Keymap, shouldBeAscii: bool, mods: ModMask, keycode: Keycode,
                      first: LayoutIndex, n: LayoutIndex, i: LayoutIndex): (r: Lookup)
    ensures r.keysym == NO_SYMBOL ==> r.consumed == 0
    ensures r.keysym != NO_SYMBOL ==>
              exists l: LayoutIndex :: l < n && Accepts(km, shouldBeAscii, mods, keycode, l)
                && r == Lookup(km.keySym(mods, l, keycode), km.consumedMods(mods, l, keycode))
    decreases n + 1 - SearchRank(i, first)
  {
    if i >= n then Lookup(NO_SYMBOL, 0)
    else if Accepts(km, shouldBeAscii, mods, keycode, i) then
      Lookup(km.keySym(mods, i, keycode), km.consumedMods(mods, i, keycode))
    else SearchFrom(km, shouldBeAscii, mods, keycode, first, n, NextFirst(i, first))
  }

  /** From the `k`-th layout of the search order, the loop tries the rest of the search order, in order. */
  lemma {:induction false} SearchFromFollowsOrder(km: Keymap, shouldBeAscii: bool, mods: ModMask, keycode: Keycode,
                                                  first: LayoutIndex, n: LayoutIndex, k: nat)
    requires k < |SearchOrder(first, n)|
    ensures SearchFrom(km, shouldBeAscii, mods, keycode, first, n, SearchOrder(first, n)[k]) ==
              SearchLayouts(km, shouldBeAscii, mods, keycode, SearchOrder(first, n)[k..])
    decreases |SearchOrder(first, n)| - k
  {
    var order := SearchOrder(first, n);
    if !Accepts(km, shouldBeAscii, mods, keycode, order[k]) {
      NextFirstWalksSearchOrder(first, n, k);
      assert order[k..][1..] == order[k + 1..];
      if k + 1 < |order| {
        SearchFromFollowsOrder(km, shouldBeAscii, mods, keycode, first, n, k + 1);
      }
    }
  }

  /**
    What `get_keysym_for_shortcut` computes: NoSymbol with no consumed
    modifiers when it fails, and otherwise the keysym and the consumed
    modifiers of one of the key's layouts, one that passes the ASCII filter.
   */
  function KeysymForShortcut(s: Shortcut, km: Keymap, layout: LayoutIndex, mods: ModMask, keycode: Keycode): (r: Lookup)
    ensures r.keysym == NO_SYMBOL ==> r.consumed == 0
  {
    var first := km.keyLayout(mods, layout, keycode);
    SearchFrom(km, IsAscii(km, s.keysym), mods, keycode, first, km.numLayoutsForKey(keycode), first)
  }

  /** The lookup of `get_keysym_for_shortcut` is the search over the layouts to try, in the search order. */
  lemma KeysymForShortcutSearchesInOrder(s: Shortcut, km: Keymap, layout: LayoutIndex, mods: ModMask, keycode: Keycode)
    ensures KeysymForShortcut(s, km, layout, mods, keycode) ==
              SearchLayouts(km, IsAscii(km, s.keysym), mods, keycode, LayoutsToTry(km, layout, mods, keycode))
  {
    var first := km.keyLayout(mods, layout, keycode);
    var n := km.numLayoutsForKey(keycode);
    SearchOrderVisitsEachOnce(first, n);
    if first < n {
      SearchFromFollowsOrder(km, IsAscii(km, s.keysym), mods, keycode, first, n, 0);
      assert SearchOrder(first, n)[0..] == SearchOrder(first, n);
    }
  }

  /**
    The ASCII filter: for a shortcut on an ASCII keysym the lookup never
    reports a non-ASCII keysym; for any other shortcut it reports the first
    keysym that is not NoSymbol, whatever its script.
   */
  lemma AsciiFilter(s: Shortcut, km: Keymap, layout: LayoutIndex, mods: ModMask, keycode: Keycode)
    ensures var r := KeysymForShortcut(s, km, layout, mods, keycode);
            IsAscii(km, s.keysym) && r.keysym != NO_SYMBOL ==> IsAscii(km, r.keysym)
    ensures var r := KeysymForShortcut(s, km, layout, mods, keycode);
            var order := LayoutsToTry(km, layout, mods, keycode);
            !IsAscii(km, s.keysym) ==>
              (r.keysym == NO_SYMBOL <==> forall l :: l in order ==> km.keySym(mods, l, keycode) == NO_SYMBOL)
  {
    var order := LayoutsToTry(km, layout, mods, keycode);
    KeysymForShortcutSearchesInOrder(s, km, layout, mods, keycode);
    SearchLayoutsMeaning(km, IsAscii(km, s.keysym), mods, keycode, order);
    if !IsAscii(km, s.keysym) {
      forall l | l in order
        ensures km.keySym(mods, l, keycode) == NO_SYMBOL <==> !Accepts(km, false, mods, keycode, l)
      {
      }
    }
  }

  /** `get_keysym_for_shortcut`: search the layouts of the key for the shortcut's keysym. */
  method GetKeysymForShortcut(s: Shortcut, km: Keymap, layout: LayoutIndex, mods: ModMask, keycode: Keycode)
    returns (keysym: Keysym, consumedMods: ModMask)
    ensures Lookup(keysym, consumedMods) == KeysymForShortcut(s, km, layout, mods, keycode)
  {
    var shouldBeAscii := IsAscii(km, s.keysym);
    var first := km.keyLayout(mods, layout, keycode);
    var numLayouts := km.numLayoutsForKey(keycode);
    var i: LayoutIndex := first;
    while i < numLayouts
      invariant SearchFrom(km, shouldBeAscii, mods, keycode, first, numLayouts, i) ==
                  KeysymForShortcut(s, km, layout, mods, keycode)
      decreases numLayouts + 1 - SearchRank(i, first)
    {
      keysym := km.keySym(mods, i, keycode);
      if keysym != NO_SYMBOL && (!shouldBeAscii || IsAscii(km, keysym)) {
        consumedMods := km.consumedMods(mods, i, keycode);
        return;
      }
      i := NextFirst(i, first);
    }
    keysym, consumedMods := NO_SYMBOL, 0;
  }

  /*********************************************************************
   * Matching one shortcut
   *********************************************************************/

  /** The significant modifiers held on top of the shortcut's own. */
  ghost function ExtraSignificant(mods: ModMask, own: ModMask): set<bv32>
  {
    (Bits(mods) - Bits(own)) * Bits(SIGNIFICANT_MODS)
  }

  /**
    The rule `shortcut_match` implements, in terms of sets of modifiers:
    - the shortcut's modifiers must all be held;
    - its keysym must come out of the lookup with the shortcut's own modifiers
      released, or failing that out of the lookup with all modifiers held;
    - the lookup that produced it must have consumed every significant
      modifier held on top of the shortcut's own.
   */
  ghost predicate ShortcutMatch(s: Shortcut, km: Keymap, layout: LayoutIndex, mods: ModMask, keycode: Keycode)
  {
    MatchRule(s, mods, KeysymForShortcut(s, km, layout, mods & !s.mods, keycode),
              KeysymForShortcut(s, km, layout, mods, keycode))
  }

  /**
    The same rule, given the result of the lookup with the shortcut's own
    modifiers released (`stripped`) and with all modifiers held (`full`).
   */
  ghost predicate MatchRule(s: Shortcut, mods: ModMask, stripped: Lookup, full: Lookup)
  {
    && Bits(s.mods) <= Bits(mods)
    && if stripped.keysym == s.keysym then ExtraSignificant(mods, s.mods) <= Bits(stripped.consumed)
       else full.keysym == s.keysym && ExtraSignificant(mods, s.mods) <= Bits(full.consumed)
  }

  /** Bit `i` of the source's final test is a significant modifier held on top of `own` and not consumed. */
  lemma BitOfUnconsumed(mods: ModMask, own: ModMask, consumed: ModMask, i: bv32)
    requires i < 32
    ensures Bit(mods & !own & !consumed & SIGNIFICANT_MODS, i) <==>
              Bit(mods, i) && !Bit(own, i) && !Bit(consumed, i) && Bit(SIGNIFICANT_MODS, i)
  {
    var held := mods & !own;
    var unconsumed := held & !consumed;
    BitOfAnd(unconsumed, SIGNIFICANT_MODS, i);
    BitOfAndNot(held, consumed, i);
    BitOfAndNot(mods, own, i);
  }

  /**
    The source's final test `(mods & ~own & ~consumed & SIGNIFICANT_MODS) == 0`
    holds exactly when every significant modifier held on top of `own` was consumed.
   */
  lemma UnconsumedIsZero(mods: ModMask, own: ModMask, consumed: ModMask)
    ensures (mods & !own & !consumed & SIGNIFICANT_MODS == 0) <==> ExtraSignificant(mods, own) <= Bits(consumed)
  {
    var u := mods & !own & !consumed & SIGNIFICANT_MODS;
    BitsEmptyIffZero(u);
    if u == 0 {
      forall i | i in ExtraSignificant(mods, own) ensures i in Bits(consumed) {
        BitOfUnconsumed(mods, own, consumed, i);
        assert i !in Bits(u);
      }
    } else {
      var i :| i in Bits(u);
      BitOfUnconsumed(mods, own, consumed, i);
      assert i in ExtraSignificant(mods, own) && i !in Bits(consumed);
    }
  }

  /**
    The source's mask tests decide exactly the rule: `(own & mods) == own`, then
    the final test on the lookup that found the keysym.
   */
  lemma MaskTestsDecideRule(s: Shortcut, mods: ModMask, stripped: Lookup, full: Lookup)
    ensures MatchRule(s, mods, stripped, full) <==>
              && s.mods & mods == s.mods
              && if stripped.keysym == s.keysym then mods & !s.mods & !stripped.consumed & SIGNIFICANT_MODS == 0
                 else full.keysym == s.keysym && mods & !s.mods & !full.consumed & SIGNIFICANT_MODS == 0
  {
    SubmaskIffSubset(s.mods, mods);
    if stripped.keysym == s.keysym {
      UnconsumedIsZero(mods, s.mods, stripped.consumed);
    } else {
      UnconsumedIsZero(mods, s.mods, full.consumed);
    }
  }

  /**
    `shortcut_match`: the mask tests on the lookup with the shortcut's own
    modifiers released, or, when that one misses the keysym, on the lookup
    with all modifiers held. What it returns is the rule `ShortcutMatch`.
   */
  method MatchShortcut(s: Shortcut, km: Keymap, layout: LayoutIndex, mods: ModMask, keycode: Keycode)
    returns (matched: bool)
    ensures matched == ShortcutMatch(s, km, layout, mods, keycode)
    ensures matched <==>
              && s.mods & mods == s.mods
              && var stripped := KeysymForShortcut(s, km, layout, mods & !s.mods, keycode);
                 var full := KeysymForShortcut(s, km, layout, mods, keycode);
                 if stripped.keysym == s.keysym then mods & !s.mods & !stripped.consumed & SIGNIFICANT_MODS == 0
                 else full.keysym == s.keysym && mods & !s.mods & !full.consumed & SIGNIFICANT_MODS == 0
  {
    ShortcutMatchIsMaskTests(s, km, layout, mods, keycode);
    if s.mods & mods != s.mods {
      return false;
    }
    var keysym, consumedMods := GetKeysymForShortcut(s, km, layout, mods & !s.mods, keycode);
    if keysym == s.keysym {
      return mods & !s.mods & !consumedMods & SIGNIFICANT_MODS == 0;
    }
    keysym, consumedMods := GetKeysymForShortcut(s, km, layout, mods, keycode);
    return keysym == s.keysym && mods & !s.mods & !consumedMods & SIGNIFICANT_MODS == 0;
  }

  /** What `shortcut_match` returns is the rule `ShortcutMatch`. */
  lemma ShortcutMatchIsMaskTests(s: Shortcut, km: Keymap, layout: LayoutIndex, mods: ModMask, keycode: Keycode)
    ensures ShortcutMatch(s, km, layout, mods, keycode) <==>
              && s.mods & mods == s.mods
              && var stripped := KeysymForShortcut(s, km, layout, mods & !s.mods, keycode);
                 var full := KeysymForShortcut(s, km, layout, mods, keycode);
                 if stripped.keysym == s.keysym then mods & !s.mods & !stripped.consumed & SIGNIFICANT_MODS == 0
                 else full.keysym == s.keysym && mods & !s.mods & !full.consumed & SIGNIFICANT_MODS == 0
  {
    MaskTestsDecideRule(s, mods, KeysymForShortcut(s, km, layout, mods & !s.mods, keycode),
                        KeysymForShortcut(s, km, layout, mods, keycode));
  }

  /**
    A significant modifier held on top of the shortcut's own and consumed by
    neither lookup rules the shortcut out; Lock never does.
   */
  lemma UnusedModifierRejects(s: Shortcut, mods: ModMask, stripped: Lookup, full: Lookup, b: bv32)
    requires b in Bits(mods) * Bits(SIGNIFICANT_MODS) && b !in Bits(s.mods)
    requires b !in Bits(stripped.consumed) && b !in Bits(full.consumed)
    ensures !MatchRule(s, mods, stripped, full)
    ensures b != 1
  {
  }

  /*********************************************************************
   * Choosing the shortcut
   *********************************************************************/

  /** The number of rows scanned: those before the first row without an action. */
  function ScanLength(shortcuts: seq<Shortcut>): (n: nat)
    ensures n <= |shortcuts|
    ensures forall j :: 0 <= j < n ==> shortcuts[j].action.Some?
    ensures n < |shortcuts| ==> shortcuts[n].action.None?
  {
    if shortcuts == [] || shortcuts[0].action.None? then 0
    else 1 + ScanLength(shortcuts[1..])
  }

  /** For each row of the table, whether the key press matches it. */
  ghost function Matches(shortcuts: seq<Shortcut>, km: Keymap, layout: LayoutIndex, mods: ModMask,
                         keycode: Keycode): (m: seq<bool>)
    ensures |m| == |shortcuts|
    decreases |shortcuts|
  {
    if shortcuts == [] then []
    else Matches(shortcuts[..|shortcuts| - 1], km, layout, mods, keycode)
         + [ShortcutMatch(shortcuts[|shortcuts| - 1], km, layout, mods, keycode)]
  }

  /** Row `k` of `Matches` is the rule applied to that row. */
  lemma {:induction false} MatchesAt(shortcuts: seq<Shortcut>, km: Keymap, layout: LayoutIndex, mods: ModMask,
                                     keycode: Keycode, k: nat)
    requires k < |shortcuts|
    ensures Matches(shortcuts, km, layout, mods, keycode)[k] == ShortcutMatch(shortcuts[k], km, layout, mods, keycode)
    decreases |shortcuts|
  {
    if k < |shortcuts| - 1 {
      MatchesAt(shortcuts[..|shortcuts| - 1], km, layout, mods, keycode, k);
    }
  }

  /**
    The call `shortcut_match(shortcut, ...)` of the scan, with `shortcut`
    pointing at row `k` of the table: it decides whether the press matches that row.
   */
  method MatchShortcutAt(shortcuts: seq<Shortcut>, k: nat, km: Keymap, layout: LayoutIndex, mods: ModMask,
                         keycode: Keycode) returns (matched: bool)
    requires k < |shortcuts|
    ensures matched == Matches(shortcuts, km, layout, mods, keycode)[k]
  {
    var s := shortcuts[k];
    matched := MatchShortcut(s, km, layout, mods, keycode);
    ShortcutMatchIsMaskTests(s, km, layout, mods, keycode);
    MatchesAt(shortcuts, km, layout, mods, keycode, k);
  }

  /** For each row of the table, the number of modifier bits it asks for. */
  ghost function ModCounts(shortcuts: seq<Shortcut>): (c: seq<nat>)
    ensures |c| == |shortcuts|
    decreases |shortcuts|
  {
    if shortcuts == [] then []
    else ModCounts(shortcuts[..|shortcuts| - 1]) + [|Bits(shortcuts[|shortcuts| - 1].mods)|]
  }

  /** Row `k` of `ModCounts` is the number of bits of that row's modifiers. */
  lemma {:induction false} ModCountsAt(shortcuts: seq<Shortcut>, k: nat)
    requires k < |shortcuts|
    ensures ModCounts(shortcuts)[k] == |Bits(shortcuts[k].mods)|
    decreases |shortcuts|
  {
    if k < |shortcuts| - 1 {
      ModCountsAt(shortcuts[..|shortcuts| - 1], k);
    }
  }

  /** The call `popcount(shortcut->mods)` of the scan, with `shortcut` pointing at row `k`. */
  method CountModsAt(shortcuts: seq<Shortcut>, k: nat) returns (count: nat)
    requires k < |shortcuts|
    ensures count == ModCounts(shortcuts)[k]
  {
    var s := shortcuts[k];
    count := Popcount(s.mods);
    ModCountsAt(shortcuts, k);
  }

  /**
    Row `b` is the one chosen among the first `n` rows, where row `j` matches
    iff `matched[j]` and asks for `counts[j]` modifier bits: it matches, no
    matching row asks for more bits, and every earlier matching row asks for fewer.
   */
  ghost predicate IsBest(counts: seq<nat>, matched: seq<bool>, n: nat, b: nat)
    requires n <= |counts| == |matched|
  {
    && b < n
    && matched[b]
    && (forall j :: 0 <= j < n && matched[j] ==> counts[j] <= counts[b])
    && (forall j :: 0 <= j < b && matched[j] ==> counts[j] < counts[b])
  }

  /** At most one row is the best one. */
  lemma BestIsUnique(counts: seq<nat>, matched: seq<bool>, n: nat, b1: nat, b2: nat)
    requires n <= |counts| == |matched|
    requires IsBest(counts, matched, n, b1) && IsBest(counts, matched, n, b2)
    ensures b1 == b2
  {
  }

  /**
    The row the scan of the first `k` rows settles on: a matching row takes
    over from the current best only when it asks for strictly more bits.
   */
  ghost function BestOf(counts: seq<nat>, matched: seq<bool>, k: nat): (b: Option<nat>)
    requires k <= |counts| == |matched|
    ensures b.Some? ==> b.value < k && matched[b.value]
  {
    if k == 0 then None
    else
      var b := BestOf(counts, matched, k - 1);
      if matched[k - 1] && (b.None? || counts[k - 1] > counts[b.value]) then Some(k - 1)
      else b
  }

  /** The scan of the first `k` rows finds nothing iff none matches, and otherwise the first matching row with the most bits. */
  lemma {:induction false} BestOfMeaning(counts: seq<nat>, matched: seq<bool>, k: nat)
    requires k <= |counts| == |matched|
    ensures var b := BestOf(counts, matched, k);
            && (b.None? <==> forall j :: 0 <= j < k ==> !matched[j])
            && (b.Some? ==> IsBest(counts, matched, k, b.value))
  {
    if k > 0 {
      BestOfMeaning(counts, matched, k - 1);
    }
  }

  /** Rows that do not match leave the scan's choice as it was. */
  lemma {:induction false} BestOfSkipsUnmatched(counts: seq<nat>, matched: seq<bool>, a: nat, k: nat)
    requires a <= k <= |counts| == |matched|
    requires forall j :: a <= j < k ==> !matched[j]
    ensures BestOf(counts, matched, k) == BestOf(counts, matched, a)
    decreases k
  {
    if a < k {
      BestOfSkipsUnmatched(counts, matched, a, k - 1);
    }
  }

  /**
    Row `b` is the one the key press triggers: it lies before the first row
    without an action, it matches, no such matching row has more modifier
    bits, and every earlier matching row has fewer.
   */
  ghost predicate IsBestMatch(shortcuts: seq<Shortcut>, km: Keymap, layout: LayoutIndex, mods: ModMask,
                              keycode: Keycode, b: nat)
  {
    && b < ScanLength(shortcuts)
    && ShortcutMatch(shortcuts[b], km, layout, mods, keycode)
    && (forall j :: 0 <= j < ScanLength(shortcuts) && ShortcutMatch(shortcuts[j], km, layout, mods, keycode) ==>
          |Bits(shortcuts[j].mods)| <= |Bits(shortcuts[b].mods)|)
    && (forall j :: 0 <= j < b && ShortcutMatch(shortcuts[j], km, layout, mods, keycode) ==>
          |Bits(shortcuts[j].mods)| < |Bits(shortcuts[b].mods)|)
  }

  /**
    What the scan of the whole table settles on: nothing iff no row before
    the first row without an action matches the key press, and otherwise the
    earliest matching row among those with the most modifier bits.
   */
  lemma ScanChoosesBestMatch(shortcuts: seq<Shortcut>, km: Keymap, layout: LayoutIndex, mods: ModMask,
                             keycode: Keycode)
    ensures var b := BestOf(ModCounts(shortcuts), Matches(shortcuts, km, layout, mods, keycode), ScanLength(shortcuts));
            && (b.None? <==> forall j :: 0 <= j < ScanLength(shortcuts) ==> !ShortcutMatch(shortcuts[j], km, layout, mods, keycode))
            && (b.Some? ==> IsBestMatch(shortcuts, km, layout, mods, keycode, b.value))
  {
    var counts, matched := ModCounts(shortcuts), Matches(shortcuts, km, layout, mods, keycode);
    BestOfMeaning(counts, matched, ScanLength(shortcuts));
    forall j | 0 <= j < ScanLength(shortcuts)
      ensures matched[j] == ShortcutMatch(shortcuts[j], km, layout, mods, keycode)
      ensures counts[j] == |Bits(shortcuts[j].mods)|
    {
      MatchesAt(shortcuts, km, layout, mods, keycode, j);
      ModCountsAt(shortcuts, j);
    }
  }

  /**
    `find_matching_shortcut`: the index of the triggered row, or `None` (NULL)
    when no scanned row matches.
   */
  method FindMatchingShortcut(shortcuts: seq<Shortcut>, km: Keymap, layout: LayoutIndex, mods: ModMask,
                              keycode: Keycode) returns (best: Option<nat>)
    ensures best == BestOf(ModCounts(shortcuts), Matches(shortcuts, km, layout, mods, keycode), ScanLength(shortcuts))
  {
    ghost var counts := ModCounts(shortcuts);
    ghost var matched := Matches(shortcuts, km, layout, mods, keycode);
    var bestNumMods: nat := 0;
    best := None;
    var k := 0;
    while k < |shortcuts| && shortcuts[k].action.Some?
      invariant k <= ScanLength(shortcuts)
      invariant best == BestOf(counts, matched, k)
      invariant best.Some? ==> best.value < k && bestNumMods == counts[best.value]
    {
      var isMatch := MatchShortcutAt(shortcuts, k, km, layout, mods, keycode);
      if isMatch {
        var numMods := CountModsAt(shortcuts, k);
        if best.None? || numMods > bestNumMods {
          best := Some(k);
          bestNumMods := numMods;
        }
      }
      k := k + 1;
    }
  }
}
