/** The window of an open chest (`container.rs`): 27 chest slots, then the player's main inventory, then the hotbar. */
module ChestWindow {
  import opened Wire
  import opened Slots
  import opened ChestFile

  const CHEST_WINDOW_SLOT_COUNT: nat := 63

  /** The inventory slots a chest window shows: hotbar 0-8 and main inventory 9-35. */
  const VIEWED_SLOT_COUNT: nat := 36

  function WindowSlotToPlayerSlot(w: i16): Option<nat> {
    if 27 <= w <= 53 then Some(w - 27 + 9)
    else if 54 <= w <= 62 then Some(w - 54)
    else None
  }

  predicate IsChestWindowSlot(w: i16) {
    0 <= w < CHEST_SLOT_COUNT
  }

  /** A player slot, or an empty one where a short inventory has none. */
  function SlotOrEmpty(player: seq<Slot>, i: nat): Slot {
    if i < |player| then player[i] else EMPTY_SLOT
  }

  /** What the window shows, by the map from window slots to player slots. */
  function Window(chest: Chest, player: seq<Slot>): (slots: seq<Slot>)
    ensures |slots| == CHEST_WINDOW_SLOT_COUNT
  {
    seq(CHEST_WINDOW_SLOT_COUNT, w requires 0 <= w < CHEST_WINDOW_SLOT_COUNT =>
      if w < CHEST_SLOT_COUNT then chest[w] else SlotOrEmpty(player, WindowSlotToPlayerSlot(w).value))
  }

  /** `apply_window_slot` on values: the new chest and the new inventory. */
  function Applied(chest: Chest, player: seq<Slot>, w: i16, item: Slot): (after: (Chest, seq<Slot>)) {
    if IsChestWindowSlot(w) then (chest[w := item], player)
    else
      match WindowSlotToPlayerSlot(w)
      case None => (chest, player)
      case Some(i) => (chest, if i < |player| then player[i := item] else player)
  }

  /** A window slot outside 0..=62 is no slot of the window. */
  predicate InWindow(w: i16) {
    0 <= w < CHEST_WINDOW_SLOT_COUNT
  }

  /** The map from window slots 27..=62 is a bijection onto the player slots 0..=35, with this inverse. */
  function PlayerSlotToWindowSlot(i: nat): i16
    requires i < VIEWED_SLOT_COUNT
  {
    if i < 9 then i + 54 else i + 18
  }

  lemma SlotMapBijection(w: i16, i: nat)
    ensures WindowSlotToPlayerSlot(w).Some? <==> InWindow(w) && !IsChestWindowSlot(w)
    ensures WindowSlotToPlayerSlot(w) == Some(i) <==> i < VIEWED_SLOT_COUNT && w == PlayerSlotToWindowSlot(i)
  {
  }

  /** Whether a write to window slot `w` of this value can be seen: the inventory must have the slot, unless the slot
      it lacks already looks empty. */
  predicate WriteLands(player: seq<Slot>, w: i16, item: Slot) {
    WindowSlotToPlayerSlot(w).None? || WindowSlotToPlayerSlot(w).value < |player| || item == EMPTY_SLOT
  }

  /** Rebuilding the window after a write gives the old window updated at that slot and nowhere else; this holds for
      a short inventory exactly when the write lands. A slot outside the window changes nothing. */
  lemma WriteThrough(chest: Chest, player: seq<Slot>, w: i16, item: Slot)
    ensures var (chest', player') := Applied(chest, player, w, item);
            var before := Window(chest, player);
            && (Window(chest', player') == (if InWindow(w) then before[w := item] else before)
                <==> WriteLands(player, w, item))
            && (!InWindow(w) ==> chest' == chest && player' == player)
            && |player'| == |player|
            && forall i :: VIEWED_SLOT_COUNT <= i < |player| ==> player'[i] == player[i]
  {
    var (chest', player') := Applied(chest, player, w, item);
    var before, after := Window(chest, player), Window(chest', player');
    if InWindow(w) {
      forall v: i16 | InWindow(v) && v != w ensures after[v] == before[v] {
        if WindowSlotToPlayerSlot(w).Some? && WindowSlotToPlayerSlot(v).Some? {
          SlotMapBijection(w, WindowSlotToPlayerSlot(v).value);
          SlotMapBijection(v, WindowSlotToPlayerSlot(v).value);
        }
      }
      assert after == before[w := after[w]];
      assert after == before[w := item] <==> after[w] == item;
    }
  }

  /** For instance, an item put into window slot 27 of a player without inventory is gone. */
  lemma WriteLost(chest: Chest, item: Slot)
    requires item != EMPTY_SLOT
    ensures Applied(chest, [], 27, item) == (chest, [])
    ensures Window(chest, []) != Window(chest, [])[27 := item]
  {
    assert Window(chest, [])[27] == EMPTY_SLOT;
  }

  /** So it holds for every write to a whole inventory. */
  lemma WholeInventoryViewed(chest: Chest, player: seq<Slot>, w: i16, item: Slot)
    requires |player| >= VIEWED_SLOT_COUNT
    ensures var (chest', player') := Applied(chest, player, w, item);
            var before := Window(chest, player);
            Window(chest', player') == if InWindow(w) then before[w := item] else before
  {
    hide Applied, Window;
    WriteThrough(chest, player, w, item);
  }

  // ---------------------------------------------------------------------------
  // The methods of the source
  // ---------------------------------------------------------------------------

  method BuildChestWindowSlots(chest: Chest, player: seq<Slot>) returns (slots: seq<Slot>)
    ensures slots == Window(chest, player)
  {
    slots := chest;
    for i := 9 to 36
      invariant slots == Window(chest, player)[..27 + (i - 9)]
    {
      slots := slots + [SlotOrEmpty(player, i)];
    }
    for i := 0 to 9
      invariant slots == Window(chest, player)[..54 + i]
    {
      slots := slots + [SlotOrEmpty(player, i)];
    }
  }

  /** Writes through to the chest or the inventory, in place. */
  method ApplyWindowSlot(chest: array<Slot>, player: array<Slot>, w: i16, item: Slot)
    requires chest.Length == CHEST_SLOT_COUNT && chest != player
    modifies chest, player
    ensures (chest[..], player[..]) == Applied(old(chest[..]), old(player[..]), w, item)
  {
    if IsChestWindowSlot(w) {
      chest[w] := item;
      return;
    }
    var playerSlot := WindowSlotToPlayerSlot(w);
    if playerSlot.Some? {
      if playerSlot.value < player.Length {
        player[playerSlot.value] := item;
      }
    }
  }
}
