/** How a list's capacity evolves under repeated insertion. */
module ListProperties {
  import opened HashTypes
  import opened ListSpec

  /** The items appended one after another, as repeated ht_add_entry calls on one slot do. */
  function AppendAll(l: ListView, items: seq<Item>): (r: ListView)
    ensures r.items == l.items + items
    ensures 0 < l.capacity && |l.items| <= l.capacity ==> |r.items| <= r.capacity
    decreases |items|
  {
    if items == [] then l else AppendAll(Appended(l, items[0]), items[1..])
  }

  /** The least `c * 2^k` that is at least `n`. */
  function GrownCapacity(n: nat, c: nat): (r: nat)
    requires c > 0
    ensures n <= r && c <= r
    decreases n - c
  {
    if n <= c then c else GrownCapacity(n, 2 * c)
  }

  /** One more item doubles the capacity exactly when the list was full. */
  lemma {:induction false} GrownCapacityStep(n: nat, c: nat)
    requires c > 0
    ensures GrownCapacity(n + 1, c) == if n >= GrownCapacity(n, c) then 2 * GrownCapacity(n, c) else GrownCapacity(n, c)
    decreases n - c
  {
    if n > c {
      GrownCapacityStep(n, 2 * c);
    }
  }

  /** A list that starts at capacity `c` has, after holding `n` items, the least
      capacity `c * 2^k` that is at least `n`: growth is by doubling, and only when full. */
  lemma {:induction false} AppendAllCapacity(l: ListView, items: seq<Item>, c: nat)
    requires c > 0 && l.capacity == GrownCapacity(|l.items|, c)
    ensures AppendAll(l, items).capacity == GrownCapacity(|l.items| + |items|, c)
    decreases |items|
  {
    if items != [] {
      GrownCapacityStep(|l.items|, c);
      AppendAllCapacity(Appended(l, items[0]), items[1..], c);
    }
  }

  /** Forty insertions into a new list of the minimum capacity 32 double it once, to 64. */
  lemma FortyInsertionsDoubleOnce(items: seq<Item>)
    requires |items| == 40
    ensures AppendAll(EmptyList(32), items).capacity == 64
  {
    AppendAllCapacity(EmptyList(32), items, 32);
  }

  /** A list grown to 64 items' room, down to 4 items, returns to the minimum capacity 32
      when one more is removed: 3 is under a quarter of 64. */
  lemma SparseListShrinksToFloor(l: ListView, i: nat)
    requires l.capacity == 64 && |l.items| == 4 && i < 4
    ensures AfterRemoval(l, i, 32) == Some(ListView(Removed(l.items, i), 32))
  {
  }
}
