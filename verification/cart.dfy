/** The browser-side cart: an append-only list of `{id, addedAt}` entries
    kept in one storage slot, the count badge, and the summary the cart page
    renders from it.

    The storage slot is a port: it is empty, holds text that does not parse,
    or holds a list of entries. The clock is a parameter. Resolving a product
    id is the injected `resolve`, standing for one fetch of the detail
    endpoint. */
module Cart {
  import opened JsValue

  datatype Entry = Entry(id: int, addedAt: int)

  datatype Slot = Absent | Corrupt | Holds(entries: seq<Entry>)

  /** `getCart`: the stored list; an empty slot and unparsable contents both
      read as the empty cart. */
  function GetCart(slot: Slot): (cart: seq<Entry>)
    ensures slot.Holds? ==> cart == slot.entries
    ensures !slot.Holds? ==> cart == []
  {
    match slot
    case Holds(entries) => entries
    case _ => []
  }

  /** The number the cart badges show. */
  function Count(slot: Slot): nat {
    |GetCart(slot)|
  }

  /** `addToCart`: appends one entry with the id and the clock reading at the
      end, and keeps every earlier entry as it was. */
  function AddToCart(slot: Slot, id: int, now: int): (slot': Slot)
    ensures var before, after := GetCart(slot), GetCart(slot');
            && |after| == |before| + 1
            && after[..|before|] == before
            && after[|before|] == Entry(id, now)
    ensures Count(slot') == Count(slot) + 1
  {
    var cart := GetCart(slot) + [Entry(id, now)];
    assert cart[..|GetCart(slot)|] == GetCart(slot);
    Holds(cart)
  }

  /** `clearCart`: the storage key is removed, so the cart reads as empty
      and the badges show 0. */
  function ClearCart(): (slot': Slot)
    ensures GetCart(slot') == [] && Count(slot') == 0
  {
    Absent
  }

  // ---------------------------------------------------------------------
  // Counting and removing

  function Occurrences(cart: seq<Entry>, id: int): nat
    decreases |cart|
  {
    if cart == [] then 0 else (if cart[0].id == id then 1 else 0) + Occurrences(cart[1..], id)
  }

  /** The ids present in a cart. */
  function IdsOf(cart: seq<Entry>): set<int>
    decreases |cart|
  {
    if cart == [] then {} else {cart[0].id} + IdsOf(cart[1..])
  }

  lemma {:induction false} OccursIffPresent(cart: seq<Entry>, id: int)
    ensures Occurrences(cart, id) > 0 <==> id in IdsOf(cart)
    decreases |cart|
  {
    if cart != [] {
      OccursIffPresent(cart[1..], id);
    }
  }

  lemma {:induction false} OccurrencesAppend(a: seq<Entry>, b: seq<Entry>, id: int)
    ensures Occurrences(a + b, id) == Occurrences(a, id) + Occurrences(b, id)
    decreases |a|
  {
    if a == [] {
      assert a + b == b;
    } else {
      assert (a + b)[1..] == a[1..] + b;
      OccurrencesAppend(a[1..], b, id);
    }
  }

  /** The filter `item.id !== id`, keeping the order of what is left. */
  function Without(cart: seq<Entry>, id: int): seq<Entry>
    decreases |cart|
  {
    if cart == [] then [] else (if cart[0].id == id then [] else [cart[0]]) + Without(cart[1..], id)
  }

  /** Removing an id drops every entry with that id and no other entry: the
      count of each other id is unchanged. */
  lemma {:induction false} WithoutOccurrences(cart: seq<Entry>, id: int, x: int)
    ensures Occurrences(Without(cart, id), x) == if x == id then 0 else Occurrences(cart, x)
    decreases |cart|
  {
    if cart != [] {
      var head := if cart[0].id == id then [] else [cart[0]];
      WithoutOccurrences(cart[1..], id, x);
      OccurrencesAppend(head, Without(cart[1..], id), x);
      if head != [] {
        assert head[1..] == [];
      }
    }
  }

  /** Removal works entry by entry, so the kept entries stay in their
      original order: it splits over a concatenation and keeps or drops each
      single entry by its id. */
  lemma {:induction false} WithoutAppend(a: seq<Entry>, b: seq<Entry>, id: int)
    ensures Without(a + b, id) == Without(a, id) + Without(b, id)
    ensures forall e :: Without([e], id) == if e.id == id then [] else [e]
    decreases |a|
  {
    forall e ensures Without([e], id) == if e.id == id then [] else [e] {
      assert [e][1..] == [];
    }
    if a == [] {
      assert a + b == b;
    } else {
      assert (a + b)[1..] == a[1..] + b;
      WithoutAppend(a[1..], b, id);
    }
  }

  /** Removing twice is removing once, and a cart without the id is kept as
      it is. */
  lemma {:induction false} WithoutIdempotent(cart: seq<Entry>, id: int)
    ensures Without(Without(cart, id), id) == Without(cart, id)
    ensures Occurrences(cart, id) == 0 ==> Without(cart, id) == cart
    decreases |cart|
  {
    if cart != [] {
      WithoutIdempotent(cart[1..], id);
      var rest := Without(cart[1..], id);
      if cart[0].id != id {
        assert Without(cart, id) == [cart[0]] + rest;
        assert ([cart[0]] + rest)[0] == cart[0];
        assert ([cart[0]] + rest)[1..] == rest;
        assert cart == [cart[0]] + cart[1..];
      } else {
        assert Without(cart, id) == rest;
      }
    }
  }

  lemma {:induction false} WithoutLength(cart: seq<Entry>, id: int)
    ensures |Without(cart, id)| == |cart| - Occurrences(cart, id)
    decreases |cart|
  {
    if cart != [] {
      WithoutLength(cart[1..], id);
    }
  }

  /** `removeFromCart`: no entry with the id is left, every other id keeps
      its entries, and the badge drops by the number of removed entries. */
  function RemoveFromCart(slot: Slot, id: int): (slot': Slot)
    ensures GetCart(slot') == Without(GetCart(slot), id)
    ensures forall x :: Occurrences(GetCart(slot'), x) == if x == id then 0 else Occurrences(GetCart(slot), x)
    ensures Count(slot') == Count(slot) - Occurrences(GetCart(slot), id)
  {
    var cart := Without(GetCart(slot), id);
    forall x ensures Occurrences(cart, x) == if x == id then 0 else Occurrences(GetCart(slot), x) {
      WithoutOccurrences(GetCart(slot), id, x);
    }
    WithoutLength(GetCart(slot), id);
    Holds(cart)
  }

  /** Removing the same id again changes nothing. */
  lemma RemoveIdempotent(slot: Slot, id: int)
    ensures RemoveFromCart(RemoveFromCart(slot, id), id) == RemoveFromCart(slot, id)
  {
    WithoutIdempotent(GetCart(slot), id);
  }

  /** Adding a product three times and removing it once leaves none of it:
      removal is by id, not one unit at a time. From an empty cart the
      badge is back at 0. */
  lemma AddThreeRemoveOnce(slot: Slot, id: int, t1: int, t2: int, t3: int)
    ensures var s := RemoveFromCart(AddToCart(AddToCart(AddToCart(slot, id, t1), id, t2), id, t3), id);
            && Occurrences(GetCart(s), id) == 0
            && Count(s) == Count(slot) - Occurrences(GetCart(slot), id)
            && (GetCart(slot) == [] ==> Count(s) == 0)
  {
    var s1 := AddToCart(slot, id, t1);
    var s2 := AddToCart(s1, id, t2);
    var s3 := AddToCart(s2, id, t3);
    var c := GetCart(slot);
    assert GetCart(s3) == c + [Entry(id, t1), Entry(id, t2), Entry(id, t3)] by {
      assert GetCart(s1) == c + [Entry(id, t1)];
      assert GetCart(s2) == GetCart(s1) + [Entry(id, t2)];
    }
    var added := [Entry(id, t1), Entry(id, t2), Entry(id, t3)];
    assert added[1..] == [Entry(id, t2), Entry(id, t3)];
    assert added[1..][1..] == [Entry(id, t3)];
    assert added[1..][1..][1..] == [];
    assert Occurrences(added[1..][1..], id) == 1;
    assert Occurrences(added[1..], id) == 2;
    assert Occurrences(added, id) == 3;
    OccurrencesAppend(c, added, id);
  }

  // ---------------------------------------------------------------------
  // Grouping: `counts[item.id] = (counts[item.id] || 0) + 1` over the cart

  function CountOr0(counts: map<int, nat>, id: int): nat {
    if id in counts then counts[id] else 0
  }

  function Tally(counts: map<int, nat>, cart: seq<Entry>): map<int, nat>
    decreases |cart|
  {
    if cart == [] then counts
    else Tally(counts[cart[0].id := CountOr0(counts, cart[0].id) + 1], cart[1..])
  }

  lemma {:induction false} TallyCounts(counts: map<int, nat>, cart: seq<Entry>)
    ensures forall x :: x in Tally(counts, cart) <==> x in counts || x in IdsOf(cart)
    ensures forall x :: CountOr0(Tally(counts, cart), x) == CountOr0(counts, x) + Occurrences(cart, x)
    decreases |cart|
  {
    if cart != [] {
      TallyCounts(counts[cart[0].id := CountOr0(counts, cart[0].id) + 1], cart[1..]);
    }
  }

  /** The grouping: a key for each id in the cart and no other, holding the
      number of entries with that id. */
  function Group(cart: seq<Entry>): (counts: map<int, nat>)
    ensures counts.Keys == IdsOf(cart)
    ensures forall x :: x in counts ==> counts[x] == Occurrences(cart, x) && counts[x] > 0
  {
    TallyCounts(map[], cart);
    var t := Tally(map[], cart);
    forall x | x in t ensures t[x] == Occurrences(cart, x) && t[x] > 0 {
      OccursIffPresent(cart, x);
    }
    var ids := IdsOf(cart);
    assert t.Keys == ids by {
      forall x ensures x in t.Keys <==> x in ids {
        assert x in t <==> x in ids;
      }
    }
    t
  }

  /** Every id of `ids` is a key of `counts`. */
  predicate Covers(ids: seq<int>, counts: map<int, nat>) {
    forall i :: 0 <= i < |ids| ==> ids[i] in counts
  }

  predicate NoDup(ids: seq<int>) {
    forall i, j :: 0 <= i < j < |ids| ==> ids[i] != ids[j]
  }

  /** The ids of the cart, each once, in order of first appearance. This
      order is the model's choice: `Object.keys` lists integer-like keys in
      ascending numeric order, so the page may fetch in a different order;
      the total does not depend on it (`SummaryTotal`). */
  function DistinctFrom(cart: seq<Entry>, seen: set<int>): (ids: seq<int>)
    ensures NoDup(ids)
    ensures forall x :: x in ids <==> x in IdsOf(cart) && x !in seen
    decreases |cart|
  {
    if cart == [] then []
    else if cart[0].id in seen then DistinctFrom(cart[1..], seen)
    else [cart[0].id] + DistinctFrom(cart[1..], seen + {cart[0].id})
  }

  function DistinctIds(cart: seq<Entry>): (ids: seq<int>)
    ensures NoDup(ids)
    ensures forall x :: x in ids <==> x in IdsOf(cart)
  {
    DistinctFrom(cart, {})
  }

  function SumCounts(ids: seq<int>, counts: map<int, nat>): nat
    requires Covers(ids, counts)
    decreases |ids|
  {
    if ids == [] then 0 else counts[ids[0]] + SumCounts(ids[1..], counts)
  }

  function SumOccurrences(ids: seq<int>, cart: seq<Entry>): nat
    decreases |ids|
  {
    if ids == [] then 0 else Occurrences(cart, ids[0]) + SumOccurrences(ids[1..], cart)
  }

  lemma {:induction false} SumOccurrencesCons(ids: seq<int>, e: Entry, cart: seq<Entry>)
    requires NoDup(ids)
    ensures SumOccurrences(ids, [e] + cart) == SumOccurrences(ids, cart) + (if e.id in ids then 1 else 0)
    decreases |ids|
  {
    if ids != [] {
      assert ([e] + cart)[1..] == cart;
      SumOccurrencesCons(ids[1..], e, cart);
      assert e.id in ids <==> e.id == ids[0] || e.id in ids[1..];
      assert ids[0] !in ids[1..];
    }
  }

  /** Over ids that name each entry of the cart exactly once, the counts
      add up to the number of entries. */
  lemma {:induction false} SumOccurrencesIsLength(ids: seq<int>, cart: seq<Entry>)
    requires NoDup(ids)
    requires forall x :: x in IdsOf(cart) ==> x in ids
    ensures SumOccurrences(ids, cart) == |cart|
    decreases |cart|
  {
    if cart == [] {
      SumOccurrencesEmpty(ids);
    } else {
      assert cart == [cart[0]] + cart[1..];
      SumOccurrencesCons(ids, cart[0], cart[1..]);
      SumOccurrencesIsLength(ids, cart[1..]);
    }
  }

  lemma {:induction false} SumOccurrencesEmpty(ids: seq<int>)
    ensures SumOccurrences(ids, []) == 0
    decreases |ids|
  {
    if ids != [] {
      SumOccurrencesEmpty(ids[1..]);
    }
  }

  lemma {:induction false} SumCountsOfGroup(ids: seq<int>, counts: map<int, nat>, cart: seq<Entry>)
    requires Covers(ids, counts)
    requires forall x :: x in counts ==> counts[x] == Occurrences(cart, x)
    ensures SumCounts(ids, counts) == SumOccurrences(ids, cart)
    decreases |ids|
  {
    if ids != [] {
      SumCountsOfGroup(ids[1..], counts, cart);
    }
  }

  /** The grouping gives every distinct id its number of entries, and those
      numbers add up to the length of the cart. */
  lemma GroupSumsToLength(cart: seq<Entry>)
    ensures var ids, counts := DistinctIds(cart), Group(cart);
            && Covers(ids, counts)
            && SumCounts(ids, counts) == |cart|
  {
    var ids, counts := DistinctIds(cart), Group(cart);
    assert Covers(ids, counts) by {
      forall i | 0 <= i < |ids| ensures ids[i] in counts {
        assert ids[i] in ids;
      }
    }
    SumCountsOfGroup(ids, counts, cart);
    SumOccurrencesIsLength(ids, cart);
  }

  // ---------------------------------------------------------------------
  // Rendering

  /** The fields of a fetched product the summary uses; `precio` is `None`
      when the JSON holds `null`. */
  datatype Listing = Listing(id: int, precio: Option<real>)

  /** The body of an ok answer from the detail endpoint: the product's
      record, or nothing at all. For an id the table does not hold the
      server calls `res.json(undefined)`, which answers status 200 with an
      empty body. */
  datatype Answer = Empty | Record(product: Listing)

  /** One fetch of the detail endpoint: the request failed, the answer had a
      non-ok status, or the answer was ok with the given body. */
  datatype Fetch = Rejected | NotOk | Ok(answer: Answer)

  /** What one iteration of the page's fetch loop makes of an answer: the
      product when `res.json()` yields a record. A failed request and a
      non-ok status give nothing, and so does an empty body, because
      `res.json()` rejects on it inside the `try` and the `catch` skips the
      id. */
  function Fetched(f: Fetch): (p: Option<Listing>)
    ensures p.Some? <==> f.Ok? && f.answer.Record?
    ensures p.Some? ==> f == Ok(Record(p.value))
  {
    match f
    case Ok(Record(p)) => Some(p)
    case _ => None
  }

  /** `p.precio || 0`. */
  function PriceOr0(p: Listing): real {
    match p.precio
    case Some(x) => x
    case None => 0.0
  }

  /** What one cart entry with this id contributes to the total: its
      product's price when the product resolves, nothing otherwise. */
  function UnitPrice(f: Fetch): real {
    match Fetched(f)
    case Some(p) => PriceOr0(p)
    case None => 0.0
  }

  /** The reference value of a cart, entry by entry and independent of any
      grouping: every entry whose product resolves adds its price. */
  function CartValue(cart: seq<Entry>, resolve: int -> Fetch): real
    decreases |cart|
  {
    if cart == [] then 0.0 else UnitPrice(resolve(cart[0].id)) + CartValue(cart[1..], resolve)
  }

  datatype Line = Line(id: int, product: Listing, qty: nat)

  datatype View = EmptyState | Summary(lines: seq<Line>, total: real)

  /** What the cart page shows, and the ids it fetched, in order. */
  datatype Rendered = Rendered(view: View, lookups: seq<int>)

  function Subtotal(l: Line): real {
    PriceOr0(l.product) * (l.qty as real)
  }

  /** The rows' loop: the sum of the lines' subtotals. */
  function Total(lines: seq<Line>): real
    decreases |lines|
  {
    if lines == [] then 0.0 else Subtotal(lines[0]) + Total(lines[1..])
  }

  /** The ids of `ids` whose product resolves, in their order. */
  function Resolving(ids: seq<int>, resolve: int -> Fetch): (kept: seq<int>)
    ensures |kept| <= |ids|
    ensures forall x :: x in kept <==> x in ids && Fetched(resolve(x)).Some?
    decreases |ids|
  {
    if ids == [] then []
    else
      var rest := Resolving(ids[1..], resolve);
      assert forall x :: x in ids[1..] ==> x in ids;
      if Fetched(resolve(ids[0])).Some? then [ids[0]] + rest else rest
  }

  /** Keeping some of the ids of a duplicate-free list keeps it
      duplicate-free. */
  lemma {:induction false} ResolvingNoDup(ids: seq<int>, resolve: int -> Fetch)
    requires NoDup(ids)
    ensures NoDup(Resolving(ids, resolve))
    decreases |ids|
  {
    if ids != [] {
      var tail := ids[1..];
      forall i, j | 0 <= i < j < |tail| ensures tail[i] != tail[j] {
        assert tail[i] == ids[i + 1] && tail[j] == ids[j + 1];
      }
      ResolvingNoDup(tail, resolve);
      var rest := Resolving(tail, resolve);
      if Fetched(resolve(ids[0])).Some? {
        assert ids[0] !in tail by {
          forall j | 0 <= j < |tail| ensures tail[j] != ids[0] {
            assert tail[j] == ids[j + 1];
          }
        }
        var kept := [ids[0]] + rest;
        forall i, j | 0 <= i < j < |kept| ensures kept[i] != kept[j] {
          assert kept[j] == rest[j - 1];
          if i > 0 {
            assert kept[i] == rest[i - 1];
          } else {
            assert rest[j - 1] in rest;
          }
        }
      }
    }
  }

  /** The ids the lines are for, in order. */
  function LineIds(lines: seq<Line>): (ids: seq<int>)
    ensures |ids| == |lines|
    ensures forall i :: 0 <= i < |lines| ==> ids[i] == lines[i].id
    decreases |lines|
  {
    if lines == [] then [] else [lines[0].id] + LineIds(lines[1..])
  }

  /** The fetch loop: one line per id whose product resolved, in the order
      of `ids`, with that product and the id's quantity. The other ids are
      skipped without stopping the rest. */
  function Lines(ids: seq<int>, counts: map<int, nat>, resolve: int -> Fetch): (lines: seq<Line>)
    requires Covers(ids, counts)
    ensures LineIds(lines) == Resolving(ids, resolve)
    ensures forall i :: 0 <= i < |lines| ==>
              lines[i].id in counts
              && Fetched(resolve(lines[i].id)) == Some(lines[i].product)
              && lines[i].qty == counts[lines[i].id]
    decreases |ids|
  {
    if ids == [] then []
    else
      var rest := Lines(ids[1..], counts, resolve);
      assert Covers(ids[1..], counts);
      match Fetched(resolve(ids[0]))
      case Some(p) =>
        var line := Line(ids[0], p, counts[ids[0]]);
        assert ([line] + rest)[1..] == rest;
        [line] + rest
      case None => rest
  }

  function Weighted(ids: seq<int>, cart: seq<Entry>, resolve: int -> Fetch): real
    decreases |ids|
  {
    if ids == [] then 0.0
    else UnitPrice(resolve(ids[0])) * (Occurrences(cart, ids[0]) as real) + Weighted(ids[1..], cart, resolve)
  }

  lemma {:induction false} TotalOfLines(ids: seq<int>, counts: map<int, nat>, cart: seq<Entry>, resolve: int -> Fetch)
    requires Covers(ids, counts)
    requires forall x :: x in counts ==> counts[x] == Occurrences(cart, x)
    ensures Total(Lines(ids, counts, resolve)) == Weighted(ids, cart, resolve)
    decreases |ids|
  {
    if ids != [] {
      TotalOfLines(ids[1..], counts, cart, resolve);
      var rest := Lines(ids[1..], counts, resolve);
      match Fetched(resolve(ids[0]))
      case Some(p) =>
        var line := Line(ids[0], p, counts[ids[0]]);
        assert ([line] + rest)[1..] == rest;
      case None =>
    }
  }

  lemma {:induction false} WeightedEmpty(ids: seq<int>, resolve: int -> Fetch)
    ensures Weighted(ids, [], resolve) == 0.0
    decreases |ids|
  {
    if ids != [] {
      WeightedEmpty(ids[1..], resolve);
    }
  }

  lemma {:induction false} WeightedCons(ids: seq<int>, e: Entry, cart: seq<Entry>, resolve: int -> Fetch)
    requires NoDup(ids)
    ensures Weighted(ids, [e] + cart, resolve)
            == Weighted(ids, cart, resolve) + (if e.id in ids then UnitPrice(resolve(e.id)) else 0.0)
    decreases |ids|
  {
    if ids != [] {
      var i := ids[0];
      assert ([e] + cart)[1..] == cart;
      ScaleStep(UnitPrice(resolve(i)), Occurrences(cart, i), Occurrences([e] + cart, i), e.id == i);
      WeightedCons(ids[1..], e, cart, resolve);
      assert e.id in ids <==> e.id == i || e.id in ids[1..];
      assert i !in ids[1..];
    }
  }

  /** One more entry of an id adds its price once to price times quantity. */
  lemma ScaleStep(w: real, before: nat, after: nat, hit: bool)
    requires after == before + (if hit then 1 else 0)
    ensures w * (after as real) == w * (before as real) + (if hit then w else 0.0)
  {
  }

  /** Summing price times quantity over the distinct ids equals summing
      the price of each entry: grouping changes nothing, whatever order
      the ids are enumerated in. */
  lemma {:induction false} WeightedIsCartValue(ids: seq<int>, cart: seq<Entry>, resolve: int -> Fetch)
    requires NoDup(ids)
    requires forall x :: x in IdsOf(cart) ==> x in ids
    ensures Weighted(ids, cart, resolve) == CartValue(cart, resolve)
    decreases |cart|
  {
    if cart == [] {
      WeightedEmpty(ids, resolve);
    } else {
      assert cart == [cart[0]] + cart[1..];
      WeightedCons(ids, cart[0], cart[1..], resolve);
      WeightedIsCartValue(ids, cart[1..], resolve);
    }
  }

  /** The total of the summary built over any duplicate-free enumeration
      of the cart's ids is the cart's entry-by-entry value. */
  lemma SummaryTotal(ids: seq<int>, cart: seq<Entry>, resolve: int -> Fetch)
    requires NoDup(ids)
    requires forall x :: x in ids <==> x in IdsOf(cart)
    ensures Covers(ids, Group(cart))
    ensures Total(Lines(ids, Group(cart), resolve)) == CartValue(cart, resolve)
  {
    var counts := Group(cart);
    assert Covers(ids, counts) by {
      forall i | 0 <= i < |ids| ensures ids[i] in counts {
        assert ids[i] in ids;
      }
    }
    TotalOfLines(ids, counts, cart, resolve);
    WeightedIsCartValue(ids, cart, resolve);
  }

  /** `renderCartList`: the empty state, with no fetch, for an empty cart;
      otherwise one fetch per distinct id, then exactly one line per id
      whose product resolved, in the order of the fetches, with its number
      of entries, and the sum of the lines' subtotals as the total, which
      is the cart's entry-by-entry value. */
  function RenderCart(slot: Slot, resolve: int -> Fetch): (r: Rendered)
    ensures GetCart(slot) == [] <==> r.view == EmptyState
    ensures GetCart(slot) == [] ==> r.lookups == []
    ensures GetCart(slot) != [] ==>
              && r.view.Summary?
              && NoDup(r.lookups)
              && (forall x :: x in r.lookups <==> x in IdsOf(GetCart(slot)))
              && LineIds(r.view.lines) == Resolving(r.lookups, resolve)
              && NoDup(LineIds(r.view.lines))
              && (forall i :: 0 <= i < |r.view.lines| ==>
                    Fetched(resolve(r.view.lines[i].id)) == Some(r.view.lines[i].product)
                    && r.view.lines[i].qty == Occurrences(GetCart(slot), r.view.lines[i].id))
              && r.view.total == Total(r.view.lines)
              && r.view.total == CartValue(GetCart(slot), resolve)
  {
    var cart := GetCart(slot);
    if cart == [] then Rendered(EmptyState, [])
    else
      var ids := DistinctIds(cart);
      SummaryTotal(ids, cart, resolve);
      ResolvingNoDup(ids, resolve);
      var lines := Lines(ids, Group(cart), resolve);
      Rendered(Summary(lines, Total(lines)), ids)
  }

  /** The simulated checkout clears the cart and renders again: the page
      shows the empty state without fetching anything. */
  lemma CheckoutEmpties(resolve: int -> Fetch)
    ensures RenderCart(ClearCart(), resolve) == Rendered(EmptyState, [])
  {
  }

  /** The example of a cart A, A, B with A at 10.50 and B at 5.00. */
  lemma ExampleTotal(a: int, b: int, resolve: int -> Fetch)
    requires a != b
    requires resolve(a) == Ok(Record(Listing(a, Some(10.5))))
    requires resolve(b) == Ok(Record(Listing(b, Some(5.0))))
    ensures RenderCart(Holds([Entry(a, 1), Entry(a, 2), Entry(b, 3)]), resolve).view.total == 26.0
  {
    var cart := [Entry(a, 1), Entry(a, 2), Entry(b, 3)];
    assert cart[1..] == [Entry(a, 2), Entry(b, 3)];
    assert cart[1..][1..] == [Entry(b, 3)];
    assert cart[1..][1..][1..] == [];
    assert CartValue(cart[1..][1..], resolve) == 5.0;
    assert CartValue(cart[1..], resolve) == 10.5 + 5.0;
    assert CartValue(cart, resolve) == 10.5 + 10.5 + 5.0;
  }

  /** The fetch loop looks at an answer only through `Fetched`: resolvers
      that agree on it for every id give the same lines. */
  lemma {:induction false} LinesRespectFetched(ids: seq<int>, counts: map<int, nat>,
                                               resolve: int -> Fetch, resolve': int -> Fetch)
    requires Covers(ids, counts)
    requires forall x :: x in ids ==> Fetched(resolve(x)) == Fetched(resolve'(x))
    ensures Lines(ids, counts, resolve) == Lines(ids, counts, resolve')
    decreases |ids|
  {
    if ids != [] {
      assert ids[0] in ids;
      assert forall x :: x in ids[1..] ==> x in ids;
      LinesRespectFetched(ids[1..], counts, resolve, resolve');
    }
  }

  /** A product deleted from the table after it was added to the cart: its
      fetch is answered ok with an empty body, and the page renders exactly
      as if that fetch had failed. No line is shown for it, the other lines
      and the total are unaffected, and nothing throws. */
  lemma DeletedProductSkipped(slot: Slot, id: int, resolve: int -> Fetch, resolve': int -> Fetch)
    requires resolve(id) == Ok(Empty)
    requires resolve'(id) == Rejected
    requires forall x :: x != id ==> resolve'(x) == resolve(x)
    ensures RenderCart(slot, resolve) == RenderCart(slot, resolve')
    ensures RenderCart(slot, resolve).view.Summary? ==> id !in LineIds(RenderCart(slot, resolve).view.lines)
  {
    var cart := GetCart(slot);
    if cart != [] {
      var ids := DistinctIds(cart);
      GroupSumsToLength(cart);
      LinesRespectFetched(ids, Group(cart), resolve, resolve');
    }
  }
}
