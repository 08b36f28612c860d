/**
 * The client-side cart kept by `CartProvider`: an ordered list of games in
 * which no two entries share an `id`.  The updater bodies passed to
 * `setCartItems` are pure functions of the previous list (`Find`, `AddItem`,
 * `RemoveItem`); the provider's state is the class `CartProvider`, whose
 * methods replace `cartItems` with the updater's result.
 */
module CartContext {
  import opened Wrappers
  import opened Types

  /** Some entry of `c` has identifier `id`. */
  predicate HasId(c: seq<Game>, id: int) {
    exists i :: 0 <= i < |c| && c[i].id == id
  }

  /** No two entries of `c` share an identifier. */
  predicate DistinctIds(c: seq<Game>) {
    forall i, j :: 0 <= i < j < |c| ==> c[i].id != c[j].id
  }

  /** The identifiers present in `c`. */
  function Ids(c: seq<Game>): (r: set<int>)
    ensures forall id :: id in r <==> HasId(c, id)
  {
    if c == [] then {}
    else
      var init := c[..|c| - 1];
      var r := Ids(init) + {c[|c| - 1].id};
      assert forall id :: HasId(c, id) <==> HasId(init, id) || c[|c| - 1].id == id by {
        forall id ensures HasId(c, id) <==> HasId(init, id) || c[|c| - 1].id == id {
          if HasId(c, id) {
            var k :| 0 <= k < |c| && c[k].id == id;
            if k < |c| - 1 { assert init[k].id == id; }
          }
          if HasId(init, id) {
            var k :| 0 <= k < |init| && init[k].id == id;
            assert c[k].id == id;
          }
        }
      }
      r
  }

  /** `Array.prototype.find` with the predicate `cartItem.id === id`: the first matching entry. */
  function Find(c: seq<Game>, id: int): (r: Option<Game>)
    ensures r.None? <==> !HasId(c, id)
    ensures r.Some? ==> exists i :: 0 <= i < |c| && c[i] == r.value && r.value.id == id &&
                                    forall j :: 0 <= j < i ==> c[j].id != id
  {
    if c == [] then None
    else if c[0].id == id then Some(c[0])
    else
      var r := Find(c[1..], id);
      assert HasId(c[1..], id) ==> HasId(c, id) by {
        if HasId(c[1..], id) {
          var k :| 0 <= k < |c[1..]| && c[1..][k].id == id;
          assert c[k + 1].id == id;
        }
      }
      assert HasId(c, id) ==> HasId(c[1..], id) by {
        if HasId(c, id) {
          var k :| 0 <= k < |c| && c[k].id == id;
          assert k != 0 && c[1..][k - 1].id == id;
        }
      }
      if r.Some? then
        ghost var k :| 0 <= k < |c[1..]| && c[1..][k] == r.value && r.value.id == id &&
                       forall j :: 0 <= j < k ==> c[1..][j].id != id;
        assert c[k + 1] == r.value;
        assert forall j :: 0 <= j < k + 1 ==> c[j].id != id by {
          forall j | 0 <= j < k + 1 ensures c[j].id != id {
            if j > 0 { assert c[j] == c[1..][j - 1]; }
          }
        }
        r
      else r
  }

  /** The updater of `addToCart`: append `item` unless an entry with its `id` is already there. */
  function AddItem(prev: seq<Game>, item: Game): (r: seq<Game>)
    ensures HasId(prev, item.id) ==> r == prev
    ensures !HasId(prev, item.id) ==> |r| == |prev| + 1 && r[..|prev|] == prev && r[|prev|] == item
    ensures HasId(r, item.id)
  {
    if Find(prev, item.id).None? then prev + [item] else prev
  }

  /** The updater of `removeFromCart`: `filter(item => item.id !== itemId)`. */
  function RemoveItem(prev: seq<Game>, itemId: int): (r: seq<Game>)
    ensures |r| <= |prev|
    ensures forall id :: HasId(r, id) <==> HasId(prev, id) && id != itemId
  {
    if prev == [] then []
    else
      var head := if prev[0].id == itemId then [] else [prev[0]];
      var r := head + RemoveItem(prev[1..], itemId);
      HasIdCons(prev);
      HasIdConcat(head, RemoveItem(prev[1..], itemId));
      assert forall id :: HasId(head, id) <==> prev[0].id != itemId && prev[0].id == id by {
        if head != [] { HasIdCons(head); }
      }
      r
  }

  lemma HasIdCons(c: seq<Game>)
    requires c != []
    ensures forall id :: HasId(c, id) <==> c[0].id == id || HasId(c[1..], id)
  {
    forall id | HasId(c[1..], id) ensures HasId(c, id) {
      var k :| 0 <= k < |c[1..]| && c[1..][k].id == id;
      assert c[k + 1].id == id;
    }
  }

  lemma HasIdConcat(a: seq<Game>, b: seq<Game>)
    ensures forall id :: HasId(a + b, id) <==> HasId(a, id) || HasId(b, id)
  {
    forall id | HasId(a + b, id) ensures HasId(a, id) || HasId(b, id) {
      var k :| 0 <= k < |a + b| && (a + b)[k].id == id;
      if k >= |a| { assert b[k - |a|].id == id; } else { assert a[k].id == id; }
    }
    forall id | HasId(b, id) ensures HasId(a + b, id) {
      var k :| 0 <= k < |b| && b[k].id == id;
      assert (a + b)[k + |a|].id == id;
    }
    forall id | HasId(a, id) ensures HasId(a + b, id) {
      var k :| 0 <= k < |a| && a[k].id == id;
      assert (a + b)[k].id == id;
    }
  }

  /** Filtering distributes over concatenation. */
  lemma {:induction false} RemoveConcat(a: seq<Game>, b: seq<Game>, id: int)
    ensures RemoveItem(a + b, id) == RemoveItem(a, id) + RemoveItem(b, id)
  {
    if a == [] {
      assert a + b == b;
    } else {
      assert (a + b)[0] == a[0];
      assert (a + b)[1..] == a[1..] + b;
      RemoveConcat(a[1..], b, id);
    }
  }

  /** Removing an identifier that is not in the cart changes nothing. */
  lemma {:induction false} RemoveAbsent(c: seq<Game>, id: int)
    requires !HasId(c, id)
    ensures RemoveItem(c, id) == c
  {
    if c != [] {
      assert c[0].id != id;
      assert !HasId(c[1..], id);
      RemoveAbsent(c[1..], id);
      assert [c[0]] + c[1..] == c;
    }
  }

  /** Every entry whose identifier differs from `id` survives, in its original relative order. */
  lemma {:induction false} RemoveSnoc(c: seq<Game>, g: Game, id: int)
    ensures RemoveItem(c + [g], id) == RemoveItem(c, id) + (if g.id == id then [] else [g])
  {
    RemoveConcat(c, [g], id);
    assert RemoveItem([g], id) == (if g.id == id then [] else [g]) + RemoveItem([], id);
  }

  /** In a cart with distinct identifiers, removing the identifier at position `i` deletes exactly that entry. */
  lemma {:induction false} RemoveAt(c: seq<Game>, i: nat)
    requires DistinctIds(c) && i < |c|
    ensures RemoveItem(c, c[i].id) == c[..i] + c[i + 1..]
  {
    var id := c[i].id;
    if i == 0 {
      assert !HasId(c[1..], id);
      RemoveAbsent(c[1..], id);
    } else {
      assert c[0].id != id;
      var t := c[1..];
      assert DistinctIds(t);
      assert t[i - 1] == c[i];
      RemoveAt(t, i - 1);
      assert t[..i - 1] + t[i..] == c[1..i] + c[i + 1..];
      assert c[..i] == [c[0]] + c[1..i];
    }
  }

  /** Adding the same game twice leaves the cart as adding it once. */
  lemma AddIdempotent(c: seq<Game>, x: Game)
    ensures AddItem(AddItem(c, x), x) == AddItem(c, x)
  {
  }

  /** Adding a game with a fresh identifier and then removing that identifier restores the cart. */
  lemma AddThenRemove(c: seq<Game>, x: Game)
    requires !HasId(c, x.id)
    ensures RemoveItem(AddItem(c, x), x.id) == c
  {
    assert AddItem(c, x) == c + [x];
    RemoveSnoc(c, x, x.id);
    RemoveAbsent(c, x.id);
  }

  /** Removing twice is the same as removing once. */
  lemma RemoveIdempotent(c: seq<Game>, id: int)
    ensures RemoveItem(RemoveItem(c, id), id) == RemoveItem(c, id)
  {
    RemoveAbsent(RemoveItem(c, id), id);
  }

  /** `addToCart` keeps the identifiers distinct. */
  lemma AddKeepsDistinct(c: seq<Game>, x: Game)
    requires DistinctIds(c)
    ensures DistinctIds(AddItem(c, x))
  {
    if !HasId(c, x.id) {
      var r := AddItem(c, x);
      forall i, j | 0 <= i < j < |r| ensures r[i].id != r[j].id {
        if j == |c| {
          assert r[i] == c[i];
        } else {
          assert r[i] == c[i] && r[j] == c[j];
        }
      }
    }
  }

  /** `removeFromCart` keeps the identifiers distinct. */
  lemma {:induction false} RemoveKeepsDistinct(c: seq<Game>, id: int)
    requires DistinctIds(c)
    ensures DistinctIds(RemoveItem(c, id))
  {
    if c != [] {
      RemoveKeepsDistinct(c[1..], id);
      var tail := RemoveItem(c[1..], id);
      if c[0].id != id {
        var r := [c[0]] + tail;
        assert !HasId(c[1..], c[0].id);
        assert !HasId(tail, c[0].id);
        forall i, j | 0 <= i < j < |r| ensures r[i].id != r[j].id {
          if i == 0 {
            assert r[j] == tail[j - 1];
          } else {
            assert r[i] == tail[i - 1] && r[j] == tail[j - 1];
          }
        }
      }
    }
  }

  /** Removal takes exactly `id` out of the identifiers present. */
  lemma RemoveIds(c: seq<Game>, id: int)
    ensures Ids(RemoveItem(c, id)) == Ids(c) - {id}
  {
    var r := RemoveItem(c, id);
    forall x ensures x in Ids(r) <==> x in Ids(c) - {id} {
      assert x in Ids(r) <==> HasId(r, x);
      assert x in Ids(c) <==> HasId(c, x);
    }
  }

  /** With distinct identifiers, the length of the cart is the number of identifiers in it. */
  lemma {:induction false} DistinctCount(c: seq<Game>)
    ensures DistinctIds(c) ==> |Ids(c)| == |c|
  {
    if c != [] && DistinctIds(c) {
      var init := c[..|c| - 1];
      var last := c[|c| - 1];
      assert DistinctIds(init);
      DistinctCount(init);
      assert !HasId(init, last.id);
      assert Ids(c) == Ids(init) + {last.id};
    }
  }

  /** One user action on the cart. */
  datatype CartAction = AddToCart(item: Game) | RemoveFromCart(itemId: int)

  /** The state after one action. */
  function Step(c: seq<Game>, a: CartAction): seq<Game> {
    match a
    case AddToCart(item) => AddItem(c, item)
    case RemoveFromCart(id) => RemoveItem(c, id)
  }

  /** The cart after performing `actions` in order from the initial empty cart (`useState([])`). */
  function Replay(actions: seq<CartAction>): seq<Game> {
    if actions == [] then [] else Step(Replay(actions[..|actions| - 1]), actions[|actions| - 1])
  }

  /** How one action changes the set of identifiers a user has added and not removed since. */
  function StepIds(ids: set<int>, a: CartAction): set<int> {
    match a
    case AddToCart(item) => ids + {item.id}
    case RemoveFromCart(id) => ids - {id}
  }

  /** The identifiers added and not removed since, over `actions` in order. */
  function Live(actions: seq<CartAction>): set<int> {
    if actions == [] then {} else StepIds(Live(actions[..|actions| - 1]), actions[|actions| - 1])
  }

  /** One action keeps the identifiers distinct and updates the identifiers present as `Live` does. */
  lemma StepInvariant(c: seq<Game>, a: CartAction)
    requires DistinctIds(c)
    ensures DistinctIds(Step(c, a))
    ensures Ids(Step(c, a)) == StepIds(Ids(c), a)
  {
    match a
    case AddToCart(item) =>
      AddKeepsDistinct(c, item);
      if !HasId(c, item.id) {
        var r := c + [item];
        assert r[..|c|] == c;
        assert Ids(r) == Ids(r[..|r| - 1]) + {r[|r| - 1].id};
      }
    case RemoveFromCart(id) =>
      RemoveKeepsDistinct(c, id);
      RemoveIds(c, id);
  }

  /**
   * Every sequence of actions from the empty cart keeps the identifiers
   * distinct, and the cart holds exactly the identifiers added and not
   * removed since; so its length (`cartCount`) is their number.
   */
  lemma {:induction false} ReplayInvariant(actions: seq<CartAction>)
    ensures DistinctIds(Replay(actions))
    ensures Ids(Replay(actions)) == Live(actions)
    ensures |Replay(actions)| == |Live(actions)|
  {
    if actions != [] {
      ReplayInvariant(actions[..|actions| - 1]);
      StepInvariant(Replay(actions[..|actions| - 1]), actions[|actions| - 1]);
    }
    DistinctCount(Replay(actions));
  }

  /** `CartProvider`'s state: `cartItems`, replaced by `addToCart` and `removeFromCart`. */
  class CartProvider {
    var cartItems: seq<Game>

    /** The invariant every reachable state keeps. */
    ghost predicate Valid()
      reads this
    {
      DistinctIds(cartItems)
    }

    /** `useState<Game[]>([])`. */
    constructor ()
      ensures Valid() && cartItems == []
    {
      cartItems := [];
    }

    method AddToCart(item: Game)
      requires Valid()
      modifies this
      ensures Valid()
      ensures cartItems == AddItem(old(cartItems), item)
    {
      AddKeepsDistinct(cartItems, item);
      cartItems := AddItem(cartItems, item);
    }

    method RemoveFromCart(itemId: int)
      requires Valid()
      modifies this
      ensures Valid()
      ensures cartItems == RemoveItem(old(cartItems), itemId)
    {
      RemoveKeepsDistinct(cartItems, itemId);
      cartItems := RemoveItem(cartItems, itemId);
    }

    /** `cartItems.length`; in a valid state, the number of distinct games in the cart. */
    function CartCount(): (n: nat)
      reads this
      ensures n == |cartItems|
      ensures DistinctIds(cartItems) ==> n == |Ids(cartItems)|
    {
      DistinctCount(cartItems);
      |cartItems|
    }
  }
}
