/**
 * The order summary of the cart page: `subtotal` is
 * `dummyCartItems.reduce((sum, item) => sum + item.price, 0)`, a left fold
 * over the page's fixed item list.
 */
module CartPage {

  /** The shape of the page's placeholder items. */
  datatype CartLine = CartLine(id: int, name: string, price: int, imageUrl: string)

  const DummyCartItems: seq<CartLine> := [
    CartLine(1, "最高の冒険ゲーム", 500, "https://placehold.jp/3d405b/ffffff/150x100.png?text=Game"),
    CartLine(2, "超絶パズルゲーム", 300, "https://placehold.jp/3d405b/ffffff/150x100.png?text=Game")
  ]

  /** The reference definition: the sum of the prices, each item counted once. */
  function SumPrices(items: seq<CartLine>): int {
    if items == [] then 0 else items[0].price + SumPrices(items[1..])
  }

  /** `Array.prototype.reduce`: the accumulator visits the items left to right. */
  function ReducePrices(acc: int, items: seq<CartLine>): (total: int)
    ensures total == acc + SumPrices(items)
    decreases |items|
  {
    if items == [] then acc else ReducePrices(acc + items[0].price, items[1..])
  }

  /** The subtotal: the reduce with initial accumulator 0. */
  function Subtotal(items: seq<CartLine>): (total: int)
    ensures items == [] ==> total == 0
    ensures total == SumPrices(items)
  {
    ReducePrices(0, items)
  }

  /** The subtotal of a concatenation is the sum of the subtotals. */
  lemma {:induction false} SubtotalConcat(a: seq<CartLine>, b: seq<CartLine>)
    ensures Subtotal(a + b) == Subtotal(a) + Subtotal(b)
  {
    if a != [] {
      assert (a + b)[0] == a[0];
      assert (a + b)[1..] == a[1..] + b;
      SubtotalConcat(a[1..], b);
    } else {
      assert a + b == b;
    }
  }

  /** Every item's price enters the subtotal exactly once, wherever the item sits. */
  lemma SubtotalAround(items: seq<CartLine>, i: nat)
    requires i < |items|
    ensures Subtotal(items) == Subtotal(items[..i]) + items[i].price + Subtotal(items[i + 1..])
  {
    assert items == items[..i] + ([items[i]] + items[i + 1..]);
    SubtotalConcat(items[..i], [items[i]] + items[i + 1..]);
    SubtotalConcat([items[i]], items[i + 1..]);
  }

  /** With non-negative prices the subtotal is non-negative. */
  lemma {:induction false} SubtotalNonNegative(items: seq<CartLine>)
    requires forall i :: 0 <= i < |items| ==> items[i].price >= 0
    ensures Subtotal(items) >= 0
  {
    if items != [] {
      SubtotalNonNegative(items[1..]);
    }
  }

  /** With non-negative prices the subtotal is at least every item's price. */
  lemma SubtotalBoundsEachPrice(items: seq<CartLine>, i: nat)
    requires forall k :: 0 <= k < |items| ==> items[k].price >= 0
    requires i < |items|
    ensures Subtotal(items) >= items[i].price
  {
    SubtotalAround(items, i);
    SubtotalNonNegative(items[..i]);
    SubtotalNonNegative(items[i + 1..]);
  }

  /** The page's two items, priced 500 and 300, give a subtotal of 800. */
  lemma DummySubtotal()
    ensures Subtotal(DummyCartItems) == 800
  {
    assert DummyCartItems[1..][1..] == [];
  }
}
