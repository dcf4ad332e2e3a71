/** The byte-bounded cache of unpacked package entries, least recently used first. */
module EntryCache {
  import opened Text

  type Size = nat

  const MAX_BYTES := 64 * 1024 * 1024
  const MAX_ITEMS := 8

  /** One cached package: its key and the bodies unpacked from it. */
  datatype Item = Item(key: string, bodies: seq<Size>)

  function Sum(bodies: seq<Size>): nat {
    if bodies == [] then 0 else bodies[0] + Sum(bodies[1..])
  }

  function Total(items: seq<Item>): nat {
    if items == [] then 0 else Sum(items[0].bodies) + Total(items[1..])
  }

  predicate Has(items: seq<Item>, key: string) { exists i :: 0 <= i < |items| && items[i].key == key }

  ghost predicate DistinctKeys(items: seq<Item>) {
    forall i, j :: 0 <= i < j < |items| ==> items[i].key != items[j].key
  }

  function Find(items: seq<Item>, key: string): Option<Item> {
    if items == [] then None
    else if items[0].key == key then Some(items[0])
    else Find(items[1..], key)
  }

  function Drop(items: seq<Item>, key: string): seq<Item> {
    if items == [] then []
    else if items[0].key == key then Drop(items[1..], key)
    else [items[0]] + Drop(items[1..], key)
  }

  /** `Map.set`: a new key goes last, a known key keeps its place. */
  function Put(items: seq<Item>, item: Item): seq<Item> {
    if items == [] then [item]
    else if items[0].key == item.key then [item] + items[1..]
    else [items[0]] + Put(items[1..], item)
  }

  predicate Over(items: seq<Item>, bytes: int) { (|items| > MAX_ITEMS || bytes > MAX_BYTES) && |items| > 1 }

  /** Eviction from the front while a cap is exceeded and more than one item is left. */
  function Evicted(items: seq<Item>, bytes: int): (seq<Item>, int) {
    if !Over(items, bytes) then (items, bytes)
    else Evicted(items[1..], bytes - Sum(items[0].bodies))
  }

  /** The list after a lookup: a hit moves its item to the end. */
  function Looked(items: seq<Item>, key: string): seq<Item> {
    match Find(items, key)
    case None => items
    case Some(item) => Drop(items, key) + [item]
  }

  // ----- facts about the list -----

  lemma {:induction false} TotalOfConcat(xs: seq<Item>, ys: seq<Item>)
    ensures Total(xs + ys) == Total(xs) + Total(ys)
  {
    if xs == [] {
      assert xs + ys == ys;
    } else {
      TotalOfConcat(xs[1..], ys);
      assert (xs + ys)[1..] == xs[1..] + ys;
    }
  }

  /** A package is charged for its bodies one by one, wherever the list is cut. */
  lemma {:induction false} SumOfConcat(xs: seq<Size>, n: Size, ys: seq<Size>)
    ensures Sum(xs + ys) == Sum(xs) + Sum(ys) && Sum([n]) == n && Sum(xs + [n] + ys) == Sum(xs) + n + Sum(ys)
  {
    assert [n][1..] == [] && ([n] + ys)[1..] == ys;
    if xs == [] {
      assert xs + ys == ys && xs + [n] + ys == [n] + ys;
    } else {
      SumOfConcat(xs[1..], n, ys);
      assert (xs + ys)[1..] == xs[1..] + ys && (xs + [n] + ys)[1..] == xs[1..] + [n] + ys;
    }
  }

  /** All cached bodies, one list. */
  function Bodies(items: seq<Item>): seq<Size> {
    if items == [] then [] else items[0].bodies + Bodies(items[1..])
  }

  lemma {:induction false} TotalIsSumOfBodies(items: seq<Item>)
    ensures Total(items) == Sum(Bodies(items))
  {
    if items != [] {
      TotalIsSumOfBodies(items[1..]);
      SumOfConcat(items[0].bodies, 0, Bodies(items[1..]));
    }
  }

  lemma HasInTail(items: seq<Item>, key: string)
    requires items != []
    ensures Has(items, key) <==> items[0].key == key || Has(items[1..], key)
  {
    if Has(items, key) && items[0].key != key {
      var i :| 0 <= i < |items| && items[i].key == key;
      assert items[1..][i - 1].key == key;
    }
    if Has(items[1..], key) {
      var i :| 0 <= i < |items[1..]| && items[1..][i].key == key;
      assert items[i + 1].key == key;
    }
  }

  lemma TailIsDistinct(items: seq<Item>)
    requires items != [] && DistinctKeys(items)
    ensures DistinctKeys(items[1..]) && !Has(items[1..], items[0].key)
  {
    var rest := items[1..];
    forall i, j | 0 <= i < j < |rest| ensures rest[i].key != rest[j].key {
      assert items[i + 1].key != items[j + 1].key;
    }
  }

  lemma {:induction false} DropUnknown(items: seq<Item>, key: string)
    requires !Has(items, key)
    ensures Drop(items, key) == items && Find(items, key).None?
  {
    if items != [] {
      HasInTail(items, key);
      assert items[0].key != key;
      DropUnknown(items[1..], key);
    }
  }

  lemma {:induction false} DropElements(items: seq<Item>, key: string)
    ensures forall x :: x in Drop(items, key) <==> x in items && x.key != key
    ensures !Has(Drop(items, key), key)
    ensures DistinctKeys(items) ==> DistinctKeys(Drop(items, key))
  {
    if items != [] {
      var rest := items[1..];
      assert items == [items[0]] + rest;
      DropElements(rest, key);
      if DistinctKeys(items) {
        TailIsDistinct(items);
        forall x | x in rest ensures x.key != items[0].key {
          var i :| 0 <= i < |rest| && rest[i] == x;
        }
      }
    }
  }

  lemma {:induction false} DropKnown(items: seq<Item>, key: string)
    requires Has(items, key) && DistinctKeys(items)
    ensures Find(items, key).Some? && Find(items, key).value.key == key
    ensures |Drop(items, key)| == |items| - 1
    ensures Total(items) == Total(Drop(items, key)) + Sum(Find(items, key).value.bodies)
  {
    TailIsDistinct(items);
    HasInTail(items, key);
    if items[0].key == key {
      DropUnknown(items[1..], key);
    } else {
      DropKnown(items[1..], key);
      assert ([items[0]] + Drop(items[1..], key))[1..] == Drop(items[1..], key);
    }
  }

  lemma {:induction false} PutNew(items: seq<Item>, item: Item)
    requires !Has(items, item.key)
    ensures Put(items, item) == items + [item]
    ensures DistinctKeys(items) ==> DistinctKeys(items + [item])
  {
    AppendNew(items, item);
    hide DistinctKeys, Has;
    if items == [] {
      assert items + [item] == [item];
    } else {
      HasInTail(items, item.key);
      PutNew(items[1..], item);
      assert [items[0]] + (items[1..] + [item]) == items + [item];
    }
  }

  lemma AppendNew(items: seq<Item>, item: Item)
    requires !Has(items, item.key)
    ensures DistinctKeys(items) ==> DistinctKeys(items + [item])
  {
    assert forall i :: 0 <= i < |items| ==> items[i].key != item.key;
  }

  /** A known key keeps its place and its number; only the bytes of its item change. */
  lemma {:induction false} PutKnown(items: seq<Item>, item: Item)
    requires Has(items, item.key) && DistinctKeys(items)
    ensures Find(items, item.key).Some? && Put(items, item) != []
    ensures Total(Put(items, item)) + Sum(Find(items, item.key).value.bodies) == Total(items) + Sum(item.bodies)
  {
    TailIsDistinct(items);
    HasInTail(items, item.key);
    if items[0].key == item.key {
      assert ([item] + items[1..])[1..] == items[1..];
    } else {
      PutKnown(items[1..], item);
      assert Put(items, item)[1..] == Put(items[1..], item);
    }
  }

  /** Storing under a known key changes that item in its place, and taking it out leaves the others in theirs. */
  lemma {:induction false} OthersKeepTheirPlaces(front: seq<Item>, known: Item, back: seq<Item>, item: Item)
    requires !Has(front, known.key) && !Has(back, known.key) && item.key == known.key
    ensures Put(front + [known] + back, item) == front + [item] + back
    ensures Drop(front + [known] + back, known.key) == front + back
    ensures Find(front + [known] + back, known.key) == Some(known)
    ensures Looked(front + [known] + back, known.key) == front + back + [known]
  {
    var all := front + [known] + back;
    if front == [] {
      assert all == [known] + back && all[1..] == back;
      assert front + [item] + back == [item] + back && front + back == back;
      DropUnknown(back, known.key);
    } else {
      HasInTail(front, known.key);
      OthersKeepTheirPlaces(front[1..], known, back, item);
      assert front[0].key != known.key by { assert !Has(front, known.key); }
      assert all[0] == front[0] && all[1..] == front[1..] + [known] + back;
      assert [front[0]] + (front[1..] + [item] + back) == front + [item] + back;
      assert [front[0]] + (front[1..] + back) == front + back;
    }
  }

  /** Eviction takes a front part of the list, never the last item, stops as soon as it may, and pays back its bytes. */
  lemma {:induction false} EvictionIs(items: seq<Item>, bytes: int)
    requires items != []
    ensures
      var (left, after) := Evicted(items, bytes);
      left != [] && |left| <= |items| && left == items[|items| - |left|..] && !Over(left, after)
      && bytes - after == Total(items) - Total(left)
    ensures forall k :: 0 <= k < |items| - |Evicted(items, bytes).0| ==> StillOver(items, bytes, k)
  {
    assert items[0..] == items;
    if Over(items, bytes) {
      var rest, paid := items[1..], bytes - Sum(items[0].bodies);
      EvictionIs(rest, paid);
      var left := Evicted(rest, paid).0;
      assert rest[|rest| - |left|..] == items[|items| - |left|..];
      forall k | 0 <= k < |items| - |left| ensures StillOver(items, bytes, k) {
        if k > 0 {
          assert StillOver(rest, paid, k - 1);
          assert rest[k - 1..] == items[k..];
        }
      }
    }
  }

  /** With the first k items gone and paid back a cap is still exceeded. */
  ghost predicate StillOver(items: seq<Item>, bytes: int, k: nat)
    requires k <= |items|
  {
    Over(items[k..], bytes - (Total(items) - Total(items[k..])))
  }

  /** Exactly one item is left, or there is one at least and both caps hold. */
  predicate WithinCaps(items: seq<Item>) {
    |items| == 1 || (1 < |items| <= 8 && Total(items) <= 67108864)
  }

  /** The longest most-recently-used part of the list that keeps within the caps. */
  ghost predicate Newest(all: seq<Item>, left: seq<Item>) {
    && left != [] && |left| <= |all| && left == all[|all| - |left|..] && WithinCaps(left)
    && forall k :: 0 <= k < |all| - |left| ==> !WithinCaps(all[k..])
  }

  class PackageEntryCache {
    var items: seq<Item>
    var bytes: int

    /** Keys are distinct, the counter is the sum of the cached bodies, and both caps hold or one item is left. */
    ghost predicate Valid()
      reads this
    {
      DistinctKeys(items) && bytes == Total(items) && (items == [] || WithinCaps(items))
    }

    constructor ()
      ensures Valid() && items == []
    {
      items, bytes := [], 0;
    }

    /** The first half of a read: a hit moves its item to the recently used end. */
    method Touch(key: string) returns (hit: Option<seq<Size>>)
      requires DistinctKeys(items)
      modifies `items
      ensures DistinctKeys(items)
      ensures hit.Some? <==> Has(old(items), key)
      ensures items == Looked(old(items), key)
      ensures hit.None? ==> items == old(items)
      ensures hit.Some? ==> items == Drop(old(items), key) + [Item(key, hit.value)]
                            && |items| == |old(items)|
                            && Find(old(items), key) == Some(Item(key, hit.value))
                            && Total(items) == Total(old(items))
    {
      DropElements(items, key);
      if Has(items, key) { DropKnown(items, key); } else { DropUnknown(items, key); }
      var found := Find(items, key);
      match found {
        case None => return None;
        case Some(item) =>
          TotalOfConcat(Drop(items, key), [item]);
          PutNew(Drop(items, key), item);
          items := Put(Drop(items, key), item);
          return Some(item.bodies);
      }
    }

    /** The second half of a miss: store what was fetched and evict from the least recently used end. */
    method Store(item: Item)
      requires DistinctKeys(items)
      modifies this
      ensures (items, bytes) == Evicted(Put(old(items), item), old(bytes) + Sum(item.bodies))
    {
      items := Put(items, item);
      bytes := bytes + Sum(item.bodies);
      ghost var all, paid := items, bytes;
      while (|items| > MAX_ITEMS || bytes > MAX_BYTES) && |items| > 1
        invariant Evicted(items, bytes) == Evicted(all, paid)
        decreases |items|
      {
        bytes := bytes - Sum(items[0].bodies);
        items := items[1..];
      }
    }

    /**
     * A whole read with nothing else in between: the counter stays exact, the item read is cached last, after a miss
     * the items left are the most recently used ones, and hit or miss both caps hold or exactly one item is left.
     */
    method Read(key: string, fetched: seq<Size>) returns (bodies: seq<Size>)
      requires Valid()
      modifies this
      ensures Valid() && WithinCaps(items) && items[|items| - 1] == Item(key, bodies)
      ensures Has(old(items), key) ==> items == Drop(old(items), key) + [Item(key, bodies)]
                                       && Find(old(items), key) == Some(Item(key, bodies))
      ensures !Has(old(items), key) ==> bodies == fetched && Newest(old(items) + [Item(key, fetched)], items)
    {
      hide Evicted, Put, Drop, Find, Newest, Has, Total, Sum;
      var hit := Touch(key);
      if hit.Some? { return hit.value; }
      ghost var before := items;
      Store(Item(key, fetched));
      MissKeepsCaps(before, Item(key, fetched));
      return fetched;
    }
  }

  lemma MissKeepsCaps(items: seq<Item>, item: Item)
    requires DistinctKeys(items) && !Has(items, item.key)
    ensures
      var (left, after) := Evicted(Put(items, item), Total(items) + Sum(item.bodies));
      && DistinctKeys(left) && after == Total(left) && left != [] && left[|left| - 1] == item && WithinCaps(left)
      && Newest(items + [item], left)
  {
    hide Evicted, Put, Has, Total, Sum;
    var all := items + [item];
    PutNew(items, item);
    TotalOfConcat(items, [item]);
    TotalOfOne(item);
    EvictionIs(all, Total(all));
    var left := Evicted(all, Total(all)).0;
    SuffixIsDistinct(all, |all| - |left|);
    forall k | 0 <= k < |all| - |left| ensures !WithinCaps(all[k..]) {
      assert StillOver(all, Total(all), k);
    }
  }

  lemma TotalOfOne(item: Item)
    ensures Total([item]) == Sum(item.bodies)
  {
    assert [item][1..] == [];
  }

  lemma SuffixIsDistinct(items: seq<Item>, k: nat)
    requires k <= |items| && DistinctKeys(items)
    ensures DistinctKeys(items[k..])
  {
  }

  // ----- overlapping reads -----

  /** How far the byte counter lies above the bytes really cached. */
  function Drift(items: seq<Item>, bytes: int): int { bytes - Total(items) }

  /** The bytes cached under a key. */
  function Cached(items: seq<Item>, key: string): nat {
    match Find(items, key)
    case Some(item) => Sum(item.bodies)
    case None => 0
  }

  /**
   * Storing an item, whatever was cached meanwhile, leaves the counter as exact as it was exactly when its key was
   * not cached or was cached with no bytes; otherwise the counter gains the replaced bytes and never loses them.
   */
  lemma StoreDrifts(items: seq<Item>, bytes: int, item: Item)
    requires DistinctKeys(items)
    ensures
      var (left, after) := Evicted(Put(items, item), bytes + Sum(item.bodies));
      Drift(left, after) == Drift(items, bytes) + Cached(items, item.key)
  {
    hide Evicted, Put, Find, Has, Total, Sum, DistinctKeys, Cached;
    PutTotal(items, item);
    EvictionIs(Put(items, item), bytes + Sum(item.bodies));
  }

  lemma PutTotal(items: seq<Item>, item: Item)
    requires DistinctKeys(items)
    ensures Put(items, item) != []
    ensures Total(Put(items, item)) + Cached(items, item.key) == Total(items) + Sum(item.bodies)
  {
    hide Put, Find, Has, Total, Sum, DistinctKeys;
    if Has(items, item.key) {
      PutKnown(items, item);
    } else {
      DropUnknown(items, item.key);
      PutNew(items, item);
      TotalOfConcat(items, [item]);
      TotalOfOne(item);
    }
  }

  /** A cache at some moment: its items and its counter. */
  datatype Cache = Cache(items: seq<Item>, bytes: int)

  /** The two halves of reads, as they interleave: a lookup, and the arrival of what a lookup missed. */
  datatype Event = Lookup(key: string) | Arrival(item: Item)

  function Next(c: Cache, e: Event): Cache {
    match e
    case Lookup(key) => Cache(Looked(c.items, key), c.bytes)
    case Arrival(item) =>
      var (left, after) := Evicted(Put(c.items, item), c.bytes + Sum(item.bodies));
      Cache(left, after)
  }

  function Play(c: Cache, events: seq<Event>): Cache {
    if events == [] then c else Next(Play(c, events[..|events| - 1]), events[|events| - 1])
  }

  /** The bytes an event replaces: those already cached under the key that arrives. */
  function Replaced(c: Cache, e: Event): nat {
    if e.Arrival? then Cached(c.items, e.item.key) else 0
  }

  function AllReplaced(c: Cache, events: seq<Event>): nat {
    if events == [] then 0
    else AllReplaced(c, events[..|events| - 1]) + Replaced(Play(c, events[..|events| - 1]), events[|events| - 1])
  }

  lemma {:induction false} PutKeepsDistinct(items: seq<Item>, item: Item)
    requires DistinctKeys(items)
    ensures DistinctKeys(Put(items, item))
    ensures forall key :: Has(Put(items, item), key) <==> Has(items, key) || key == item.key
  {
    hide DistinctKeys, Has;
    if items == [] {
      OneItem(item);
    } else {
      TailIsDistinct(items);
      PutKeepsDistinct(items[1..], item);
      var rest := if items[0].key == item.key then items[1..] else Put(items[1..], item);
      var first := if items[0].key == item.key then item else items[0];
      HasCons(first, rest);
      assert items == [items[0]] + items[1..];
      HasCons(items[0], items[1..]);
    }
  }

  lemma OneItem(item: Item)
    ensures DistinctKeys([item]) && forall key :: Has([item], key) <==> key == item.key
    ensures forall key :: !Has([], key)
  {
    assert [item][0].key == item.key;
  }

  lemma HasCons(first: Item, rest: seq<Item>)
    ensures forall key :: Has([first] + rest, key) <==> key == first.key || Has(rest, key)
    ensures DistinctKeys(rest) && !Has(rest, first.key) ==> DistinctKeys([first] + rest)
  {
    var all := [first] + rest;
    assert all[0] == first && forall i :: 0 <= i < |rest| ==> all[i + 1] == rest[i];
    forall key ensures Has(all, key) <==> key == first.key || Has(rest, key) {
      HasInTail(all, key);
      assert all[1..] == rest;
    }
  }

  lemma LookedIs(items: seq<Item>, key: string)
    requires DistinctKeys(items)
    ensures DistinctKeys(Looked(items, key)) && Total(Looked(items, key)) == Total(items)
  {
    hide Find, Drop, Has, Total, Sum, DistinctKeys;
    if Has(items, key) {
      DropKnown(items, key);
      DropElements(items, key);
      var item := Find(items, key).value;
      TotalOfConcat(Drop(items, key), [item]);
      TotalOfOne(item);
      AppendNew(Drop(items, key), item);
    } else {
      DropUnknown(items, key);
    }
  }

  lemma NextDrifts(c: Cache, e: Event)
    requires DistinctKeys(c.items)
    ensures DistinctKeys(Next(c, e).items)
    ensures Drift(Next(c, e).items, Next(c, e).bytes) == Drift(c.items, c.bytes) + Replaced(c, e)
  {
    hide Evicted, Put, Looked, Total, Sum, DistinctKeys, Cached;
    match e {
      case Lookup(key) => LookedIs(c.items, key);
      case Arrival(item) =>
        StoreDrifts(c.items, c.bytes, item);
        var all := Put(c.items, item);
        PutKeepsDistinct(c.items, item);
        PutTotal(c.items, item);
        EvictionIs(all, c.bytes + Sum(item.bodies));
        SuffixIsDistinct(all, |all| - |Evicted(all, c.bytes + Sum(item.bodies)).0|);
    }
  }

  /** However lookups and arrivals interleave, the counter has drifted by exactly the bytes that were replaced. */
  lemma {:induction false} RunDrifts(c: Cache, events: seq<Event>)
    requires DistinctKeys(c.items)
    ensures DistinctKeys(Play(c, events).items)
    ensures Drift(Play(c, events).items, Play(c, events).bytes) == Drift(c.items, c.bytes) + AllReplaced(c, events)
  {
    hide Next, DistinctKeys, Drift, Replaced;
    if events != [] {
      var init := events[..|events| - 1];
      RunDrifts(c, init);
      NextDrifts(Play(c, init), events[|events| - 1]);
    }
  }

  /** The counter stays as exact as it was exactly when nothing arrives for a key that is cached with bytes. */
  lemma {:induction false} StaysExactIff(c: Cache, events: seq<Event>)
    requires DistinctKeys(c.items)
    ensures Drift(Play(c, events).items, Play(c, events).bytes) == Drift(c.items, c.bytes)
            <==> forall k :: 0 <= k < |events| ==> Replaced(Play(c, events[..k]), events[k]) == 0
  {
    hide Next, DistinctKeys, Drift, Replaced;
    RunDrifts(c, events);
    if events != [] {
      var n := |events| - 1;
      var init := events[..n];
      RunDrifts(c, init);
      StaysExactIff(c, init);
      forall k | 0 <= k < n ensures init[..k] == events[..k] && init[k] == events[k] {}
    }
  }

  /** A drift once gained is never lost, whatever is read, stored or evicted afterwards. */
  lemma {:induction false} DriftNeverFalls(c: Cache, events: seq<Event>, k: nat)
    requires DistinctKeys(c.items) && k <= |events|
    ensures Drift(Play(c, events[..k]).items, Play(c, events[..k]).bytes)
            <= Drift(Play(c, events).items, Play(c, events).bytes)
    decreases |events|
  {
    hide Next, DistinctKeys, Drift, Replaced;
    if k == |events| {
      assert events[..k] == events;
    } else {
      var init := events[..|events| - 1];
      DriftNeverFalls(c, init, k);
      assert init[..k] == events[..k];
      RunDrifts(c, init);
      NextDrifts(Play(c, init), events[|events| - 1]);
    }
  }

  const FRESH := Cache([], 0)

  lemma PlayOne(c: Cache, events: seq<Event>, e: Event)
    ensures Play(c, events + [e]) == Next(Play(c, events), e)
  {
    assert (events + [e])[..|events|] == events;
  }

  /** Two reads of one uncached package overlap: both miss, both store, and its bytes count twice. */
  lemma TwoMissesDrift(item: Item)
    ensures
      var run := [Lookup(item.key), Lookup(item.key), Arrival(item), Arrival(item)];
      Play(FRESH, run) == Cache([item], 2 * Sum(item.bodies))
  {
    hide Sum;
    var looks := [Lookup(item.key), Lookup(item.key)];
    PlayOne(FRESH, [], Lookup(item.key));
    assert [] + [Lookup(item.key)] == [Lookup(item.key)];
    PlayOne(FRESH, [Lookup(item.key)], Lookup(item.key));
    assert [Lookup(item.key)] + [Lookup(item.key)] == looks;
    PlayOne(FRESH, looks, Arrival(item));
    PlayOne(FRESH, looks + [Arrival(item)], Arrival(item));
    assert looks + [Arrival(item)] + [Arrival(item)]
        == [Lookup(item.key), Lookup(item.key), Arrival(item), Arrival(item)];
    assert [item][1..] == [] && [item] + [] == [item];
  }

  // ----- what a store keeps -----

  /**
   * The item stored last is still cached exactly when giving up nothing behind its place satisfies the caps; a new
   * key stands last and always is, a known one keeps its place and may go although it was just read.
   */
  lemma StoredStaysIff(items: seq<Item>, bytes: int, item: Item, place: nat)
    requires DistinctKeys(items) && place < |Put(items, item)| && Put(items, item)[place] == item
    ensures
      var all, paid := Put(items, item), bytes + Sum(item.bodies);
      Has(Evicted(all, paid).0, item.key) <==> exists k: nat :: k <= place && !StillOver(all, paid, k)
  {
    hide Evicted, Put, Total, Sum;
    var all, paid := Put(items, item), bytes + Sum(item.bodies);
    PutKeepsDistinct(items, item);
    EvictionIs(all, paid);
    var left := Evicted(all, paid).0;
    var n := |all| - |left|;
    assert !StillOver(all, paid, n);
    if place >= n { assert left[place - n] == item; }
    forall i | 0 <= i < |left| && place < n ensures left[i].key != item.key { assert left[i] == all[n + i]; }
  }

  lemma NewKeyStays(items: seq<Item>, bytes: int, item: Item)
    requires DistinctKeys(items) && !Has(items, item.key)
    ensures Has(Evicted(Put(items, item), bytes + Sum(item.bodies)).0, item.key)
  {
    hide Evicted, Put, Total, Sum;
    PutNew(items, item);
    EvictionIs(Put(items, item), bytes + Sum(item.bodies));
    var left := Evicted(Put(items, item), bytes + Sum(item.bodies)).0;
    assert left[|left| - 1] == item;
  }

  const MIB := 1024 * 1024

  /** A second arrival of a package evicts that very package: it kept its old place, and its bytes now count twice. */
  lemma JustReadIsEvicted()
    ensures
      var a, b := Item("a", [40 * MIB]), Item("b", [10 * MIB]);
      Play(FRESH, [Lookup("a"), Lookup("a"), Arrival(a), Lookup("b"), Arrival(b), Arrival(a)]) == Cache([b], 50 * MIB)
  {
    var a, b := Item("a", [40 * MIB]), Item("b", [10 * MIB]);
    OneBody(40 * MIB);
    OneBody(10 * MIB);
    hide Sum, Has;
    var looks := [Lookup("a"), Lookup("a")];
    PlayOne(FRESH, [], Lookup("a"));
    assert [] + [Lookup("a")] == [Lookup("a")];
    PlayOne(FRESH, [Lookup("a")], Lookup("a"));
    assert [Lookup("a")] + [Lookup("a")] == looks;
    PlayOne(FRESH, looks, Arrival(a));
    assert Play(FRESH, looks + [Arrival(a)]) == Cache([a], 40 * MIB);
    PlayOne(FRESH, looks + [Arrival(a)], Lookup("b"));
    assert [a][1..] == [];
    assert Find([a], "b") == Find([], "b") == None;
    var four := looks + [Arrival(a)] + [Lookup("b")];
    assert Play(FRESH, four) == Cache([a], 40 * MIB);
    PlayOne(FRESH, four, Arrival(b));
    assert Put([a], b) == [a, b];
    assert Play(FRESH, four + [Arrival(b)]) == Cache([a, b], 50 * MIB);
    PlayOne(FRESH, four + [Arrival(b)], Arrival(a));
    assert Put([a, b], a) == [a, b] by { assert [a, b][1..] == [b]; }
    assert [a, b][1..] == [b];
    assert Evicted([a, b], 90 * MIB) == Evicted([b], 50 * MIB) == ([b], 50 * MIB);
    assert four + [Arrival(b)] + [Arrival(a)]
        == [Lookup("a"), Lookup("a"), Arrival(a), Lookup("b"), Arrival(b), Arrival(a)];
  }

  lemma OneBody(n: Size)
    ensures Sum([n]) == n
  {
    assert [n][1..] == [];
  }
}
