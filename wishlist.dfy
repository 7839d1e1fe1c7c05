/** The `wishlist_status` table: one visited flag per (user id, museum key) pair. */
module Wishlist {

  /** `wishlist_status`, keyed by its primary key `(user_id, museum_key)`, holding `is_visited`. */
  type WishlistTable = map<(nat, string), int>

  /** Every stored flag is 0 or 1, as the toggle writes them. */
  predicate FlagsAreBits(w: WishlistTable) {
    forall p :: p in w ==> w[p] == 0 || w[p] == 1
  }

  /** `get_wishlist_status`: the stored flag, 0 when the pair has no row. */
  function Status(w: WishlistTable, userId: nat, museumKey: string): (s: int)
    ensures (userId, museumKey) !in w ==> s == 0
    ensures (userId, museumKey) in w ==> s == w[(userId, museumKey)]
    ensures FlagsAreBits(w) ==> s == 0 || s == 1
  {
    if (userId, museumKey) in w then w[(userId, museumKey)] else 0
  }

  /** The new flag: 1 when the current one is 0, otherwise 0. */
  function Flip(status: int): (r: int)
    ensures r == 0 || r == 1
    ensures r == 1 <==> status == 0
  {
    if status == 0 then 1 else 0
  }

  /** `INSERT OR REPLACE` of the flipped flag: the pair's row is replaced, no other changes. */
  function Toggled(w: WishlistTable, userId: nat, museumKey: string): (w': WishlistTable)
    ensures w'.Keys == w.Keys + {(userId, museumKey)}
    ensures Status(w', userId, museumKey) == Flip(Status(w, userId, museumKey))
    ensures forall p :: p in w && p != (userId, museumKey) ==> w'[p] == w[p]
    ensures FlagsAreBits(w) ==> FlagsAreBits(w')
  {
    w[(userId, museumKey) := Flip(Status(w, userId, museumKey))]
  }

  /** Toggling leaves the status of every other pair as it was. */
  lemma ToggleOthersUnchanged(w: WishlistTable, userId: nat, museumKey: string, u: nat, k: string)
    requires (u, k) != (userId, museumKey)
    ensures Status(Toggled(w, userId, museumKey), u, k) == Status(w, u, k)
  {
    if (u, k) in w {
      assert (u, k) in Toggled(w, userId, museumKey);
    }
  }

  /** Toggling twice restores the status the pair had (its row then exists). */
  lemma ToggleTwice(w: WishlistTable, userId: nat, museumKey: string)
    requires FlagsAreBits(w)
    ensures Status(Toggled(Toggled(w, userId, museumKey), userId, museumKey), userId, museumKey)
            == Status(w, userId, museumKey)
  {
  }
}
