/** The least-recently-used byte cache of src/vfs.cpp: `cache_get_`, `cache_put_`, `cache_touch_` and the rest. */
module ByteCache {
  import opened Strings

  // ---------- The cache as a value ----------

  datatype Item = Item(key: string, value: string)

  /** What the cache holds, most recently used first, and its settings and counters. */
  datatype Cache = Cache(items: seq<Item>, on: bool, capacity: nat, hits: nat, misses: nat)

  ghost function Total(items: seq<Item>): nat {
    if items == [] then 0 else |items[0].value| + Total(items[1..])
  }

  ghost predicate Unique(items: seq<Item>) {
    forall i, j | 0 <= i < j < |items| :: items[i].key != items[j].key
  }

  ghost function Lookup(items: seq<Item>, k: string): Option<string> {
    if items == [] then None else if items[0].key == k then Some(items[0].value) else Lookup(items[1..], k)
  }

  ghost function Without(items: seq<Item>, k: string): seq<Item> {
    if items == [] then [] else (if items[0].key == k then [] else [items[0]]) + Without(items[1..], k)
  }

  /** Drops items from the back until the rest fits. */
  ghost function Fit(items: seq<Item>, capacity: nat): seq<Item>
    decreases |items|
  {
    if Total(items) <= capacity || items == [] then items else Fit(items[..|items| - 1], capacity)
  }

  ghost function ToFront(items: seq<Item>, k: string, v: string): seq<Item> { [Item(k, v)] + Without(items, k) }

  datatype Call =
    | Get(key: string)
    | Put(key: string, value: string)
    | Invalidate(key: string)
    | Clear
    | On(on: bool)
    | Resize(bytes: nat)

  /** What each call does to the cache, and what it returns. */
  ghost function Apply(c: Cache, call: Call): (Cache, Option<string>) {
    match call
    case Get(k) =>
      if !c.on then (c, None)
      else (match Lookup(c.items, k)
            case None => (c.(misses := c.misses + 1), None)
            case Some(v) => (c.(items := ToFront(c.items, k, v), hits := c.hits + 1), Some(v)))
    case Put(k, v) =>
      (if c.on then c.(items := Fit(ToFront(c.items, k, v), c.capacity)) else c, None)
    case Invalidate(k) => (c.(items := Without(c.items, k)), None)
    case Clear => (c.(items := [], hits := 0, misses := 0), None)
    case On(b) => (c.(on := b), None)
    case Resize(n) => (c.(capacity := n), None)
  }

  // ---------- Lists of items ----------

  lemma {:induction false} TotalConcat(a: seq<Item>, b: seq<Item>)
    ensures Total(a + b) == Total(a) + Total(b)
  {
    if a == [] {
      assert a + b == b;
    } else {
      assert (a + b)[1..] == a[1..] + b;
      TotalConcat(a[1..], b);
    }
  }

  lemma {:induction false} WithoutKeys(items: seq<Item>, k: string)
    ensures forall x :: x in Without(items, k) <==> x in items && x.key != k
    ensures Unique(items) ==> Unique(Without(items, k))
    ensures |Without(items, k)| <= |items|
  {
    if items == [] {
    } else {
      WithoutKeys(items[1..], k);
      assert items == [items[0]] + items[1..];
      var rest := Without(items[1..], k);
      if Unique(items) {
        assert Unique(items[1..]);
        assert forall i | 0 <= i < |rest| :: rest[i] in items[1..];
      }
    }
  }

  lemma {:induction false} WithoutAbsent(items: seq<Item>, k: string)
    requires forall x | x in items :: x.key != k
    ensures Without(items, k) == items
  {
    if items == [] {
    } else {
      assert items == [items[0]] + items[1..];
      WithoutAbsent(items[1..], k);
    }
  }

  lemma {:induction false} WithoutPosition(items: seq<Item>, p: nat)
    requires Unique(items) && p < |items|
    ensures Without(items, items[p].key) == items[..p] + items[p + 1..]
    ensures Lookup(items, items[p].key) == Some(items[p].value)
  {
    var k := items[p].key;
    if p == 0 {
      WithoutAbsent(items[1..], k);
      assert items[..0] + items[1..] == items[1..];
    } else {
      WithoutPosition(items[1..], p - 1);
      assert [items[0]] + (items[1..][..p - 1] + items[1..][p..]) == items[..p] + items[p + 1..];
    }
  }

  /** Among unique keys, taking a key out takes out the one item that has it. */
  lemma WithoutAt(items: seq<Item>, p: nat)
    requires Unique(items) && p < |items|
    ensures Without(items, items[p].key) == items[..p] + items[p + 1..]
    ensures Total(items) == |items[p].value| + Total(Without(items, items[p].key))
    ensures Lookup(items, items[p].key) == Some(items[p].value)
  {
    WithoutPosition(items, p);
    assert items == items[..p] + items[p..];
    TotalConcat(items[..p], items[p..]);
    TotalConcat(items[..p], items[p + 1..]);
  }

  lemma {:induction false} LookupMember(items: seq<Item>, k: string)
    ensures Lookup(items, k).Some? ==> Item(k, Lookup(items, k).value) in items
    ensures Lookup(items, k).None? ==> forall x | x in items :: x.key != k
  {
    if items == [] {
    } else {
      LookupMember(items[1..], k);
      assert items == [items[0]] + items[1..];
    }
  }

  /** Dropping from the back leaves the longest front part that fits. */
  lemma {:induction false} FitIsLongest(items: seq<Item>, capacity: nat)
    ensures Fit(items, capacity) <= items && Total(Fit(items, capacity)) <= capacity
    ensures forall n | |Fit(items, capacity)| < n <= |items| :: Total(items[..n]) > capacity
    decreases |items|
  {
    if Total(items) <= capacity || items == [] {
    } else {
      var front := items[..|items| - 1];
      FitIsLongest(front, capacity);
      assert items[..|items|] == items;
      forall n | |Fit(items, capacity)| < n <= |items| ensures Total(items[..n]) > capacity {
        if n < |items| { assert items[..n] == front[..n]; }
      }
    }
  }

  // ---------- The list and the table behind it ----------

  /** A list node: `id` stands for its address, which is what the table's iterators hold. */
  datatype Link = Link(id: nat, key: string)

  datatype Slot = Slot(value: string, at: nat)

  ghost predicate Differ(a: Link, b: Link) { a.key != b.key && a.id != b.id }

  ghost predicate AllDiffer(list: seq<Link>) {
    forall i, j {:trigger Differ(list[i], list[j])} | 0 <= i < j < |list| :: Differ(list[i], list[j])
  }

  /** A link whose key has a slot that stores the link's own position. */
  ghost predicate Sits(l: Link, slots: map<string, Slot>, nextId: nat) {
    l.key in slots && slots[l.key].at == l.id && l.id < nextId
  }

  ghost predicate Held(k: string, slots: map<string, Slot>, list: seq<Link>) {
    k in slots && Link(slots[k].at, k) in list
  }

  /** List and table have the same keys once each, and every stored position is that of its own key. */
  ghost predicate Linked(list: seq<Link>, slots: map<string, Slot>, nextId: nat) {
    && (forall l {:trigger Sits(l, slots, nextId)} | l in list :: Sits(l, slots, nextId))
    && AllDiffer(list)
    && (forall k {:trigger Held(k, slots, list)} | k in slots :: Held(k, slots, list))
  }

  /** The same without one key: its slot may linger, its link may not. */
  ghost predicate Unlinked(rest: seq<Link>, slots: map<string, Slot>, nextId: nat, k: string) {
    && (forall l {:trigger Sits(l, slots, nextId)} | l in rest :: l.key != k && Sits(l, slots, nextId))
    && AllDiffer(rest)
    && (forall x {:trigger Held(x, slots, rest)} | x in slots :: x == k || Held(x, slots, rest))
  }

  ghost predicate Row(item: Item, l: Link, slots: map<string, Slot>) {
    l.key in slots && item == Item(l.key, slots[l.key].value)
  }

  /** The items are the list's keys with the table's values, in the list's order. */
  ghost predicate Rows(items: seq<Item>, list: seq<Link>, slots: map<string, Slot>) {
    && |items| == |list|
    && forall i {:trigger Row(items[i], list[i], slots)} | 0 <= i < |list| :: Row(items[i], list[i], slots)
  }

  /** `std::list::erase` by iterator. */
  function Erase(list: seq<Link>, id: nat): seq<Link> {
    if list == [] then [] else if list[0].id == id then list[1..] else [list[0]] + Erase(list[1..], id)
  }

  lemma {:induction false} EraseAt(list: seq<Link>, p: nat)
    requires p < |list| && AllDiffer(list)
    ensures Erase(list, list[p].id) == list[..p] + list[p + 1..]
  {
    if p == 0 {
      assert list[..0] + list[1..] == list[1..];
    } else {
      assert Differ(list[0], list[p]);
      EraseAt(list[1..], p - 1);
      assert [list[0]] + (list[1..][..p - 1] + list[1..][p..]) == list[..p] + list[p + 1..];
    }
  }

  lemma RowsUnique(items: seq<Item>, list: seq<Link>, slots: map<string, Slot>)
    requires AllDiffer(list) && Rows(items, list, slots)
    ensures Unique(items)
  {
    forall i, j | 0 <= i < j < |list| ensures items[i].key != items[j].key {
      assert Differ(list[i], list[j]) && Row(items[i], list[i], slots) && Row(items[j], list[j], slots);
    }
  }

  lemma CutDiffers(list: seq<Link>, p: nat)
    requires p < |list| && AllDiffer(list)
    ensures AllDiffer(list[..p] + list[p + 1..])
    ensures forall l :: l in list[..p] + list[p + 1..] <==> l in list && l.key != list[p].key
  {
    var rest := list[..p] + list[p + 1..];
    forall i, j | 0 <= i < j < |rest| ensures Differ(rest[i], rest[j]) {
      assert Differ(list[if i < p then i else i + 1], list[if j < p then j else j + 1]);
    }
    forall i | 0 <= i < |list| && i != p ensures list[i].key != list[p].key {
      assert Differ(list[if i < p then i else p], list[if i < p then p else i]);
    }
    assert forall i | 0 <= i < |list| && i != p :: list[i] == rest[if i < p then i else i - 1];
  }

  lemma CutLinks(list: seq<Link>, slots: map<string, Slot>, nextId: nat, p: nat)
    requires p < |list| && Linked(list, slots, nextId)
    ensures Unlinked(list[..p] + list[p + 1..], slots, nextId, list[p].key)
  {
    CutDiffers(list, p);
    forall x | x in slots && x != list[p].key ensures Held(x, slots, list[..p] + list[p + 1..]) {
      assert Held(x, slots, list);
    }
  }

  lemma CutRows(items: seq<Item>, list: seq<Link>, slots: map<string, Slot>, p: nat)
    requires p < |list| && Rows(items, list, slots)
    ensures Row(items[p], list[p], slots)
    ensures Rows(items[..p] + items[p + 1..], list[..p] + list[p + 1..], slots)
  {
    var cut, rest := items[..p] + items[p + 1..], list[..p] + list[p + 1..];
    forall i | 0 <= i < |rest| ensures Row(cut[i], rest[i], slots) {
      var j := if i < p then i else i + 1;
      assert Row(items[j], list[j], slots);
    }
  }

  /** Erasing a key's own position takes exactly that key's link and that key's item out. */
  lemma Erased(items: seq<Item>, list: seq<Link>, slots: map<string, Slot>, nextId: nat, k: string)
    requires Linked(list, slots, nextId) && Rows(items, list, slots) && k in slots
    ensures Unlinked(Erase(list, slots[k].at), slots, nextId, k)
    ensures Rows(Without(items, k), Erase(list, slots[k].at), slots)
    ensures Total(items) == |slots[k].value| + Total(Without(items, k))
    ensures Lookup(items, k) == Some(slots[k].value)
  {
    assert Held(k, slots, list);
    var p :| 0 <= p < |list| && list[p] == Link(slots[k].at, k);
    EraseAt(list, p);
    CutLinks(list, slots, nextId, p);
    CutRows(items, list, slots, p);
    RowsUnique(items, list, slots);
    WithoutAt(items, p);
  }

  lemma PushedLinks(rest: seq<Link>, slots: map<string, Slot>, nextId: nat, k: string, v: string)
    requires Unlinked(rest, slots, nextId, k)
    ensures Linked([Link(nextId, k)] + rest, slots[k := Slot(v, nextId)], nextId + 1)
  {
    var list, table := [Link(nextId, k)] + rest, slots[k := Slot(v, nextId)];
    assert list[0] in list;
    forall l | l in rest ensures l.key != k && l.id != nextId && Sits(l, table, nextId + 1) {
      assert Sits(l, slots, nextId);
    }
    forall i, j | 0 <= i < j < |list| ensures Differ(list[i], list[j]) {
      assert list[j] == rest[j - 1] && list[j] in rest;
      if i > 0 { assert Differ(rest[i - 1], rest[j - 1]); }
    }
    forall x | x in slots && x != k ensures Held(x, table, list) {
      assert Held(x, slots, rest);
    }
  }

  /** A new front link with the key's new value, over a list the key is not in. */
  lemma Pushed(items: seq<Item>, rest: seq<Link>, slots: map<string, Slot>, nextId: nat, k: string, v: string)
    requires Unlinked(rest, slots, nextId, k) && Rows(items, rest, slots)
    ensures Linked([Link(nextId, k)] + rest, slots[k := Slot(v, nextId)], nextId + 1)
    ensures Rows([Item(k, v)] + items, [Link(nextId, k)] + rest, slots[k := Slot(v, nextId)])
    ensures Total([Item(k, v)] + items) == |v| + Total(items)
  {
    PushedLinks(rest, slots, nextId, k, v);
    var longer, list, table := [Item(k, v)] + items, [Link(nextId, k)] + rest, slots[k := Slot(v, nextId)];
    forall i | 0 <= i < |list| ensures Row(longer[i], list[i], table) {
      if i > 0 {
        assert Row(items[i - 1], rest[i - 1], slots);
        assert rest[i - 1] in rest && Sits(rest[i - 1], slots, nextId);
      }
    }
    assert longer[1..] == items;
  }

  lemma Absent(items: seq<Item>, list: seq<Link>, slots: map<string, Slot>, nextId: nat, k: string)
    requires Linked(list, slots, nextId) && Rows(items, list, slots) && k !in slots
    ensures Unlinked(list, slots, nextId, k)
    ensures Lookup(items, k) == None && Without(items, k) == items
  {
    forall x | x in items ensures x.key != k {
      var i :| 0 <= i < |items| && items[i] == x;
      assert Row(items[i], list[i], slots);
    }
    forall l | l in list ensures l.key != k {
      assert Sits(l, slots, nextId);
    }
    LookupMember(items, k);
    WithoutAbsent(items, k);
  }

  /** A slot without a link may get another value or be dropped; all rows stay as they are. */
  lemma Loose(items: seq<Item>, rest: seq<Link>, slots: map<string, Slot>, nextId: nat, k: string, v: string)
    requires k in slots && Unlinked(rest, slots, nextId, k) && Rows(items, rest, slots)
    ensures Unlinked(rest, slots[k := slots[k].(value := v)], nextId, k)
    ensures Rows(items, rest, slots[k := slots[k].(value := v)])
    ensures Linked(rest, slots - {k}, nextId) && Rows(items, rest, slots - {k})
  {
    forall i | 0 <= i < |rest| ensures rest[i].key != k && Row(items[i], rest[i], slots) {
      assert rest[i] in rest && Sits(rest[i], slots, nextId);
    }
    forall l | l in rest ensures l.key != k && Sits(l, slots, nextId) {}
    forall x | x in slots && x != k ensures Held(x, slots, rest) {}
  }

  /** Taking the last link out of the list. */
  lemma Popped(items: seq<Item>, list: seq<Link>, slots: map<string, Slot>, nextId: nat)
    requires Linked(list, slots, nextId) && Rows(items, list, slots) && list != []
    ensures var n := |list| - 1;
            && list[n].key in slots
            && Unlinked(list[..n], slots, nextId, list[n].key)
            && Rows(items[..n], list[..n], slots)
            && Total(items) == Total(items[..n]) + |slots[list[n].key].value|
  {
    var n := |list| - 1;
    CutLinks(list, slots, nextId, n);
    CutRows(items, list, slots, n);
    assert list[..n] + list[n + 1..] == list[..n];
    assert items[..n] + items[n + 1..] == items[..n];
    assert items == items[..n] + [items[n]];
    TotalConcat(items[..n], [items[n]]);
    assert Total([items[n]]) == |items[n].value|;
  }

  class Lru {
    var list: seq<Link>
    var slots: map<string, Slot>
    var on: bool
    var capacity: nat
    var size: nat
    var hits: nat
    var misses: nat
    var nextId: nat
    ghost var items: seq<Item>

    /** The ledger. */
    ghost predicate Valid()
      reads this
    {
      Linked(list, slots, nextId) && Rows(items, list, slots) && size == Total(items)
    }

    ghost function Value(): Cache
      reads this
    {
      Cache(items, on, capacity, hits, misses)
    }

    constructor ()
      ensures Valid() && Value() == Cache([], true, 0x10_0000, 0, 0)
    {
      list, slots, on, capacity, size, hits, misses, nextId := [], map[], true, 0x10_0000, 0, 0, 0, 0;
      items := [];
    }

    method Clear()
      modifies this
      ensures Valid() && Value() == Cache([], old(on), old(capacity), 0, 0)
    {
      list, slots, size, hits, misses := [], map[], 0, 0, 0;
      items := [];
    }

    /** Moves a key's link to the front and renews its stored position. */
    method Touch(k: string, ghost rest: seq<Item>)
      requires k in slots ==> Unlinked(Erase(list, slots[k].at), slots, nextId, k)
      requires k in slots ==> Rows(rest, Erase(list, slots[k].at), slots)
      modifies `list, `slots, `nextId, `items
      ensures k !in slots ==> items == old(items)
      ensures k in slots ==> Linked(list, slots, nextId) && Rows(items, list, slots)
      ensures slots.Keys == old(slots).Keys
      ensures k in slots ==> items == [Item(k, old(slots)[k].value)] + rest && slots[k].value == old(slots)[k].value
      ensures k in slots ==> Total(items) == |slots[k].value| + Total(rest)
    {
      if k !in slots { return; }
      var v := slots[k].value;
      var links := Erase(list, slots[k].at);
      Pushed(rest, links, slots, nextId, k, v);
      list := [Link(nextId, k)] + links;
      slots := slots[k := Slot(v, nextId)];
      nextId := nextId + 1;
      items := [Item(k, v)] + rest;
    }

    method Get(k: string) returns (r: Option<string>)
      requires Valid()
      modifies this
      ensures Valid() && (Value(), r) == Apply(old(Value()), Call.Get(k))
    {
      if !on { return None; }
      if k !in slots {
        Absent(items, list, slots, nextId, k);
        misses := misses + 1;
        return None;
      }
      Erased(items, list, slots, nextId, k);
      Touch(k, Without(items, k));
      hits := hits + 1;
      return Some(slots[k].value);
    }

    method Put(k: string, v: string)
      requires Valid()
      modifies this
      ensures Valid() && Value() == Apply(old(Value()), Call.Put(k, v)).0
    {
      if !on { return; }
      if k in slots {
        ghost var rest := Without(items, k);
        Erased(items, list, slots, nextId, k);
        size := size - |slots[k].value|;
        Loose(rest, Erase(list, slots[k].at), slots, nextId, k, v);
        slots := slots[k := slots[k].(value := v)];
        Touch(k, rest);
        size := size + |v|;
      } else {
        Absent(items, list, slots, nextId, k);
        Pushed(items, list, slots, nextId, k, v);
        list := [Link(nextId, k)] + list;
        slots := slots[k := Slot(v, nextId)];
        size := size + |v|;
        nextId := nextId + 1;
        items := [Item(k, v)] + items;
      }
      Evict();
    }

    /** Pops links from the back until the size is within capacity. */
    method Evict()
      requires Valid()
      modifies `list, `slots, `size, `items
      ensures Valid() && items == Fit(old(items), capacity)
    {
      while size > capacity && list != []
        invariant Valid()
        invariant Fit(items, capacity) == Fit(old(items), capacity)
        decreases |list|
      {
        var last := list[|list| - 1].key;
        Popped(items, list, slots, nextId);
        list := list[..|list| - 1];
        items := items[..|list|];
        if last in slots {
          Loose(items, list, slots, nextId, last, "");
          size := size - |slots[last].value|;
          slots := slots - {last};
        }
      }
    }

    method Invalidate(k: string)
      requires Valid()
      modifies this
      ensures Valid() && Value() == Apply(old(Value()), Call.Invalidate(k)).0
    {
      if k in slots {
        Erased(items, list, slots, nextId, k);
        items := Without(items, k);
        size := size - |slots[k].value|;
        Loose(items, Erase(list, slots[k].at), slots, nextId, k, "");
        list := Erase(list, slots[k].at);
        slots := slots - {k};
      } else {
        Absent(items, list, slots, nextId, k);
      }
    }

    method SetOn(b: bool)
      requires Valid()
      modifies this
      ensures Valid() && Value() == old(Value()).(on := b)
    {
      on := b;
    }

    method SetSize(bytes: nat)
      requires Valid()
      modifies this
      ensures Valid() && Value() == old(Value()).(capacity := bytes)
    {
      capacity := bytes;
    }
  }

  // ---------- Runs: the cache against a dictionary that forgets nothing ----------

  ghost function Run(c: Cache, calls: seq<Call>): Cache {
    if calls == [] then c else Apply(Run(c, calls[..|calls| - 1]), calls[|calls| - 1]).0
  }

  /** The last put of each key made while on, unless it was invalidated or cleared since. */
  datatype Memory = Memory(on: bool, puts: map<string, string>)

  ghost function Remember(m: Memory, call: Call): Memory {
    match call
    case Get(_) => m
    case Put(k, v) => if m.on then m.(puts := m.puts[k := v]) else m
    case Invalidate(k) => m.(puts := m.puts - {k})
    case Clear => m.(puts := map[])
    case On(b) => m.(on := b)
    case Resize(_) => m
  }

  ghost function Recall(m: Memory, calls: seq<Call>): Memory {
    if calls == [] then m else Remember(Recall(m, calls[..|calls| - 1]), calls[|calls| - 1])
  }

  /** Everything the cache holds is what the dictionary says. */
  ghost predicate Backed(c: Cache, m: Memory) {
    && Unique(c.items)
    && c.on == m.on
    && (forall x | x in c.items :: x.key in m.puts && m.puts[x.key] == x.value)
  }

  lemma ToFrontMembers(items: seq<Item>, k: string, v: string)
    requires Unique(items)
    ensures Unique(ToFront(items, k, v))
    ensures forall x :: x in ToFront(items, k, v) <==> x == Item(k, v) || (x in items && x.key != k)
  {
    WithoutKeys(items, k);
    var rest := Without(items, k);
    assert forall i | 0 <= i < |rest| :: rest[i] in rest;
  }

  lemma StepBacked(c: Cache, m: Memory, call: Call)
    requires Backed(c, m)
    ensures Backed(Apply(c, call).0, Remember(m, call))
  {
    match call
    case Get(k) =>
      LookupMember(c.items, k);
      if Lookup(c.items, k).Some? { ToFrontMembers(c.items, k, Lookup(c.items, k).value); }
    case Put(k, v) =>
      ToFrontMembers(c.items, k, v);
      FitIsLongest(ToFront(c.items, k, v), c.capacity);
    case Invalidate(k) => WithoutKeys(c.items, k);
    case Clear =>
    case On(_) =>
    case Resize(_) =>
  }

  /** Over any run, a hit returns the last value put while on and neither invalidated nor cleared since. */
  lemma {:induction false} HitsAreCurrent(c: Cache, m: Memory, calls: seq<Call>, k: string)
    requires Backed(c, m)
    ensures Backed(Run(c, calls), Recall(m, calls))
    ensures var r := Apply(Run(c, calls), Get(k)).1;
            r.Some? ==> k in Recall(m, calls).puts && r.value == Recall(m, calls).puts[k]
    decreases |calls|
  {
    if calls == [] {
    } else {
      var before := calls[..|calls| - 1];
      HitsAreCurrent(c, m, before, k);
      StepBacked(Run(c, before), Recall(m, before), calls[|calls| - 1]);
    }
    LookupMember(Run(c, calls).items, k);
  }

  // ---------- What a call does to the other keys ----------

  lemma {:induction false} LookupWithout(items: seq<Item>, k: string, j: string)
    ensures Lookup(Without(items, k), j) == if j == k then None else Lookup(items, j)
  {
    if items == [] {
    } else {
      LookupWithout(items[1..], k, j);
      assert Without(items, k) == (if items[0].key == k then [] else [items[0]]) + Without(items[1..], k);
      if items[0].key != k {
        assert Without(items, k)[1..] == Without(items[1..], k);
      } else {
        assert Without(items, k) == Without(items[1..], k);
      }
    }
  }

  /** An invalidated key is gone; every other key answers as before. */
  lemma InvalidateExactly(c: Cache, k: string, j: string)
    ensures Apply(Apply(c, Invalidate(k)).0, Get(j)).1 == if j == k then None else Apply(c, Get(j)).1
  {
    LookupWithout(c.items, k, j);
  }

  /** A put never changes what another key answers, and takes its answer away only for want of room. */
  lemma PutExactly(c: Cache, k: string, v: string, j: string)
    requires j != k
    ensures var r := Apply(Apply(c, Put(k, v)).0, Get(j)).1;
      && (r.Some? ==> r == Apply(c, Get(j)).1)
      && (c.on && Total(Without(c.items, k)) + |v| <= c.capacity ==> r == Apply(c, Get(j)).1)
  {
    var items := ToFront(c.items, k, v);
    FitIsLongest(items, c.capacity);
    LookupWithout(c.items, k, j);
    assert items[1..] == Without(c.items, k);
    assert Lookup(items, j) == Lookup(Without(c.items, k), j);
    var kept := Fit(items, c.capacity);
    assert items == kept + items[|kept|..];
    LookupConcat(kept, items[|kept|..], j);
  }

  // ---------- While everything fits ----------

  /** The bytes of everything a dictionary holds. */
  ghost function Bytes(puts: map<string, string>): nat {
    if puts == map[] then 0
    else
      var k :| k in puts;
      |puts[k]| + Bytes(puts - {k})
  }

  lemma {:induction false} BytesStep(puts: map<string, string>, k: string)
    requires k in puts
    ensures Bytes(puts) == |puts[k]| + Bytes(puts - {k})
    decreases |puts|
  {
    var j :| j in puts && Bytes(puts) == |puts[j]| + Bytes(puts - {j});
    if j == k {
    } else {
      BytesStep(puts - {j}, k);
      BytesStep(puts - {k}, j);
      assert puts - {j} - {k} == puts - {k} - {j};
    }
  }

  /** The items are the dictionary: the same keys with the same values. */
  ghost predicate Same(items: seq<Item>, puts: map<string, string>) {
    forall k :: Lookup(items, k) == if k in puts then Some(puts[k]) else None
  }

  lemma {:induction false} TotalIsBytes(items: seq<Item>, puts: map<string, string>)
    requires Unique(items) && Same(items, puts)
    ensures Total(items) == Bytes(puts)
    decreases |items|
  {
    if items == [] {
      forall k ensures k !in puts { assert Lookup(items, k) == None; }
    } else {
      var k := items[0].key;
      assert Lookup(items, k) == Some(items[0].value);
      BytesStep(puts, k);
      SameTail(items, puts);
      TotalIsBytes(items[1..], puts - {k});
    }
  }

  lemma SameTail(items: seq<Item>, puts: map<string, string>)
    requires items != [] && Unique(items) && Same(items, puts)
    ensures Unique(items[1..]) && Same(items[1..], puts - {items[0].key})
  {
    var rest, k := items[1..], items[0].key;
    forall j ensures Lookup(rest, j) == if j in puts - {k} then Some((puts - {k})[j]) else None {
      assert Lookup(items, j) == if j in puts then Some(puts[j]) else None;
      if j == k { LookupMember(rest, k); }
    }
  }

  /** If the call at this position is a put made while on, everything put so far has room after it. */
  ghost predicate FitsAt(c: Cache, m: Memory, calls: seq<Call>, i: nat)
    requires i < |calls|
  {
    calls[i].Put? && Recall(m, calls[..i]).on ==>
      Bytes(Remember(Recall(m, calls[..i]), calls[i]).puts) <= Run(c, calls[..i]).capacity
  }

  ghost predicate AllFit(c: Cache, m: Memory, calls: seq<Call>) {
    forall i | 0 <= i < |calls| :: FitsAt(c, m, calls, i)
  }

  lemma FitBefore(c: Cache, m: Memory, calls: seq<Call>, n: nat)
    requires AllFit(c, m, calls) && n <= |calls|
    ensures AllFit(c, m, calls[..n])
  {
    forall i | 0 <= i < n ensures FitsAt(c, m, calls[..n], i) {
      assert FitsAt(c, m, calls, i) && calls[..n][..i] == calls[..i];
    }
  }

  /** The cache is the dictionary. */
  ghost predicate Exact(c: Cache, m: Memory) { Unique(c.items) && c.on == m.on && Same(c.items, m.puts) }

  lemma ToFrontSame(items: seq<Item>, puts: map<string, string>, k: string, v: string)
    requires Unique(items) && Same(items, puts)
    ensures Unique(ToFront(items, k, v)) && Same(ToFront(items, k, v), puts[k := v])
  {
    ToFrontMembers(items, k, v);
    var front := ToFront(items, k, v);
    assert front[1..] == Without(items, k);
    forall j ensures Lookup(front, j) == if j in puts[k := v] then Some(puts[k := v][j]) else None {
      LookupWithout(items, k, j);
    }
  }

  lemma StepExact(c: Cache, m: Memory, call: Call)
    requires Exact(c, m)
    requires call.Put? && m.on ==> Bytes(Remember(m, call).puts) <= c.capacity
    ensures Exact(Apply(c, call).0, Remember(m, call))
  {
    match call
    case Get(k) =>
      if c.on && Lookup(c.items, k).Some? {
        ToFrontSame(c.items, m.puts, k, m.puts[k]);
        assert m.puts[k := m.puts[k]] == m.puts;
      }
    case Put(k, v) =>
      if c.on {
        ToFrontSame(c.items, m.puts, k, v);
        TotalIsBytes(ToFront(c.items, k, v), m.puts[k := v]);
      }
    case Invalidate(k) =>
      WithoutKeys(c.items, k);
      forall j ensures Lookup(Without(c.items, k), j) == if j in m.puts - {k} then Some((m.puts - {k})[j]) else None {
        LookupWithout(c.items, k, j);
      }
    case _ =>
  }

  /** As long as everything put has room, the cache answers exactly like a dictionary that forgets nothing. */
  lemma {:induction false} NothingIsLost(c: Cache, m: Memory, calls: seq<Call>, k: string)
    requires Exact(c, m) && AllFit(c, m, calls)
    ensures Exact(Run(c, calls), Recall(m, calls))
    ensures var puts := Recall(m, calls).puts;
      Run(c, calls).on ==> Apply(Run(c, calls), Get(k)).1 == if k in puts then Some(puts[k]) else None
    decreases |calls|
  {
    if calls == [] {
    } else {
      var n := |calls| - 1;
      var before := calls[..n];
      FitBefore(c, m, calls, n);
      assert FitsAt(c, m, calls, n);
      NothingIsLost(c, m, before, k);
      StepExact(Run(c, before), Recall(m, before), calls[n]);
    }
  }

  // ---------- Order and counters ----------

  /** The key a call brings to the front. */
  ghost function Used(c: Cache, call: Call): Option<string> {
    match call
    case Get(k) => if Apply(c, call).1.Some? then Some(k) else None
    case Put(k, _) => if c.on then Some(k) else None
    case _ => None
  }

  /** The position of the last call that used a key, -1 when there is none. */
  ghost function LastUse(c: Cache, calls: seq<Call>, k: string): int {
    if calls == [] then -1
    else
      var n := |calls| - 1;
      if Used(Run(c, calls[..n]), calls[n]) == Some(k) then n else LastUse(c, calls[..n], k)
  }

  ghost predicate Later(c: Cache, calls: seq<Call>, x: Item, y: Item) {
    LastUse(c, calls, x.key) > LastUse(c, calls, y.key)
  }

  ghost predicate ByLastUse(c: Cache, calls: seq<Call>, items: seq<Item>) {
    forall i, j | 0 <= i < j < |items| :: Later(c, calls, items[i], items[j])
  }

  lemma {:induction false} LastUseBefore(c: Cache, calls: seq<Call>, k: string)
    ensures -1 <= LastUse(c, calls, k) < |calls|
  {
    if calls == [] {
    } else {
      LastUseBefore(c, calls[..|calls| - 1], k);
    }
  }

  lemma {:induction false} WithoutByLastUse(c: Cache, calls: seq<Call>, items: seq<Item>, k: string)
    requires ByLastUse(c, calls, items)
    ensures ByLastUse(c, calls, Without(items, k))
    decreases |items|
  {
    if items == [] {
    } else {
      WithoutByLastUse(c, calls, items[1..], k);
      WithoutKeys(items[1..], k);
      var rest := Without(items[1..], k);
      forall j | 0 <= j < |rest| ensures Later(c, calls, items[0], rest[j]) {
        assert rest[j] in rest && rest[j] in items[1..];
        var p :| 0 <= p < |items[1..]| && items[1..][p] == rest[j];
        assert items[p + 1] == rest[j];
      }
    }
  }

  /** A used key goes to the front; the others were used before. */
  lemma FrontByLastUse(c: Cache, calls: seq<Call>, items: seq<Item>, k: string, v: string)
    requires calls != [] && ByLastUse(c, calls[..|calls| - 1], items)
    requires Used(Run(c, calls[..|calls| - 1]), calls[|calls| - 1]) == Some(k)
    ensures ByLastUse(c, calls, ToFront(items, k, v))
  {
    var n := |calls| - 1;
    var rest, front := Without(items, k), ToFront(items, k, v);
    WithoutByLastUse(c, calls[..n], items, k);
    WithoutKeys(items, k);
    forall i, j | 0 <= i < j < |front| ensures Later(c, calls, front[i], front[j]) {
      assert front[j] == rest[j - 1] && front[j] in rest;
      LastUseBefore(c, calls[..n], front[j].key);
      if i > 0 {
        assert front[i] == rest[i - 1] && front[i] in rest;
        assert Later(c, calls[..n], rest[i - 1], rest[j - 1]);
      }
    }
  }

  /** Over any run the items are in the order of their last use, newest first, so that the oldest leave first. */
  lemma {:induction false} OrderIsLastUse(c: Cache, calls: seq<Call>)
    requires c.items == []
    ensures ByLastUse(c, calls, Run(c, calls).items)
    decreases |calls|
  {
    if calls == [] {
    } else {
      var n := |calls| - 1;
      var before := Run(c, calls[..n]);
      OrderIsLastUse(c, calls[..n]);
      match calls[n]
      case Get(k) =>
        if Used(before, calls[n]).Some? {
          FrontByLastUse(c, calls, before.items, k, Lookup(before.items, k).value);
        } else {
          SameLastUse(c, calls, before.items);
        }
      case Put(k, v) =>
        if before.on {
          FrontByLastUse(c, calls, before.items, k, v);
          FitIsLongest(ToFront(before.items, k, v), before.capacity);
        } else {
          SameLastUse(c, calls, before.items);
        }
      case Invalidate(k) =>
        WithoutByLastUse(c, calls[..n], before.items, k);
        SameLastUse(c, calls, Without(before.items, k));
      case _ => SameLastUse(c, calls, Run(c, calls).items);
    }
  }

  lemma SameLastUse(c: Cache, calls: seq<Call>, items: seq<Item>)
    requires calls != [] && Used(Run(c, calls[..|calls| - 1]), calls[|calls| - 1]) == None
    requires ByLastUse(c, calls[..|calls| - 1], items)
    ensures ByLastUse(c, calls, items)
  {
    forall i, j | 0 <= i < j < |items| ensures Later(c, calls, items[i], items[j]) {
      assert Later(c, calls[..|calls| - 1], items[i], items[j]);
    }
  }

  /** The reads of a run made while on, and those of them that were answered. */
  ghost function Asked(c: Cache, calls: seq<Call>): nat {
    if calls == [] then 0
    else
      var n := |calls| - 1;
      Asked(c, calls[..n]) + if calls[n].Get? && Run(c, calls[..n]).on then 1 else 0
  }

  ghost function Answered(c: Cache, calls: seq<Call>): nat {
    if calls == [] then 0
    else
      var n := |calls| - 1;
      Answered(c, calls[..n]) + if calls[n].Get? && Apply(Run(c, calls[..n]), calls[n]).1.Some? then 1 else 0
  }

  lemma StepCounts(c: Cache, call: Call)
    requires call != Clear
    ensures var (r, v) := Apply(c, call);
      && r.hits == c.hits + (if call.Get? && v.Some? then 1 else 0)
      && r.hits + r.misses == c.hits + c.misses + (if call.Get? && c.on then 1 else 0)
  {
  }

  /** Hits count the answered reads and misses the others, as long as nothing is cleared. */
  lemma {:induction false} CountersExact(c: Cache, calls: seq<Call>)
    requires Clear !in calls
    ensures Run(c, calls).hits == c.hits + Answered(c, calls)
    ensures Run(c, calls).hits + Run(c, calls).misses == c.hits + c.misses + Asked(c, calls)
    decreases |calls|
  {
    if calls == [] {
    } else {
      var n := |calls| - 1;
      assert calls[n] in calls;
      CountersExact(c, calls[..n]);
      StepCounts(Run(c, calls[..n]), calls[n]);
    }
  }

  /** A put made while on ends within capacity, whatever was cached and however the capacity was changed. */
  lemma PutEndsWithinCapacity(c: Cache, k: string, v: string)
    ensures c.on ==> Total(Apply(c, Put(k, v)).0.items) <= c.capacity
    ensures c.on && |v| <= c.capacity ==> Apply(Apply(c, Put(k, v)).0, Get(k)).1 == Some(v)
  {
    var items := ToFront(c.items, k, v);
    FitIsLongest(items, c.capacity);
    assert items[..1] == [Item(k, v)] && [Item(k, v)][1..] == [];
    assert Total(items[..1]) == |v|;
  }

  // ---------- The stack property of read-through use ----------

  /** One read: what the cache returns, or else the stored value, which is then put. */
  ghost function Read(c: Cache, k: string, v: string): Cache {
    var (after, hit) := Apply(c, Get(k));
    if hit.Some? then after else Apply(after, Put(k, v)).0
  }

  ghost function Reads(c: Cache, store: map<string, string>, keys: seq<string>): Cache
    requires forall k | k in keys :: k in store
  {
    if keys == [] then c
    else Read(Reads(c, store, keys[..|keys| - 1]), keys[|keys| - 1], store[keys[|keys| - 1]])
  }

  /** Every key read so far once, by last access, newest first. */
  ghost function Recency(store: map<string, string>, keys: seq<string>): seq<Item>
    requires forall k | k in keys :: k in store
  {
    if keys == [] then []
    else ToFront(Recency(store, keys[..|keys| - 1]), keys[|keys| - 1], store[keys[|keys| - 1]])
  }

  lemma {:induction false} RecencyUnique(store: map<string, string>, keys: seq<string>)
    requires forall k | k in keys :: k in store
    ensures Unique(Recency(store, keys))
    ensures forall x | x in Recency(store, keys) :: x.key in store && x.value == store[x.key]
  {
    if keys == [] {
    } else {
      var n := |keys| - 1;
      RecencyUnique(store, keys[..n]);
      ToFrontMembers(Recency(store, keys[..n]), keys[n], store[keys[n]]);
    }
  }

  /** Taking a key out commutes with cutting the order where the cut is before or after the key. */
  lemma {:induction false} WithoutConcat(a: seq<Item>, b: seq<Item>, k: string)
    ensures Without(a + b, k) == Without(a, k) + Without(b, k)
  {
    if a == [] {
      assert a + b == b;
    } else {
      assert (a + b)[1..] == a[1..] + b;
      WithoutConcat(a[1..], b, k);
    }
  }

  lemma {:induction false} LookupConcat(a: seq<Item>, b: seq<Item>, k: string)
    ensures Lookup(a, k).Some? ==> Lookup(a, k) == Lookup(a + b, k)
  {
    if a == [] {
    } else {
      assert (a + b)[1..] == a[1..] + b;
      LookupConcat(a[1..], b, k);
    }
  }

  lemma WithoutPrefix(items: seq<Item>, k: string, n: nat)
    requires n <= |items|
    ensures Without(items[..n], k) <= Without(items, k)
    ensures Lookup(items[..n], k).Some? ==> Lookup(items[..n], k) == Lookup(items, k)
  {
    assert items[..n] + items[n..] == items;
    WithoutConcat(items[..n], items[n..], k);
    LookupConcat(items[..n], items[n..], k);
  }

  /** The longest fitting front part is the only front part that fits and cannot be longer. */
  lemma FitUnless(items: seq<Item>, capacity: nat, n: nat)
    requires n <= |items| && Total(items[..n]) <= capacity
    requires n < |items| ==> Total(items[..n + 1]) > capacity
    ensures Fit(items, capacity) == items[..n]
  {
    FitIsLongest(items, capacity);
    var fit := Fit(items, capacity);
    if |fit| > n {
      assert fit == (items[..n + 1]) + fit[|(items[..n + 1])|..];
      TotalConcat((items[..n + 1]), fit[|(items[..n + 1])|..]);
    }
    assert |fit| == n;
  }

  lemma FitStops(a: seq<Item>, w: seq<Item>, capacity: nat)
    requires w != [] ==> Total(a + [w[0]]) > capacity
    ensures Fit(a + w, capacity) == Fit(a, capacity)
  {
    var n := |Fit(a, capacity)|;
    FitIsLongest(a, capacity);
    assert (a + w)[..n] == a[..n] == Fit(a, capacity);
    if n < |a| {
      assert (a + w)[..n + 1] == a[..n + 1];
    } else if w != [] {
      assert (a + w)[..n + 1] == a + [w[0]];
    }
    FitUnless(a + w, capacity, n);
  }

  /** Moving a key to the front adds its size if it was not there, and nothing otherwise. */
  lemma TotalToFront(items: seq<Item>, k: string, v: string)
    requires Unique(items) && forall x | x in items && x.key == k :: x.value == v
    ensures Lookup(items, k).Some? ==> Lookup(items, k) == Some(v) && Total(ToFront(items, k, v)) == Total(items)
    ensures Lookup(items, k).None? ==> Total(ToFront(items, k, v)) == |v| + Total(items) && Without(items, k) == items
  {
    LookupMember(items, k);
    assert ToFront(items, k, v)[1..] == Without(items, k);
    if Lookup(items, k).Some? {
      var p :| 0 <= p < |items| && items[p] == Item(k, Lookup(items, k).value);
      WithoutAt(items, p);
    } else {
      WithoutAbsent(items, k);
    }
  }

  /** What was too much after the front part is still too much once the key is in front. */
  lemma NextStillTooMuch(p: seq<Item>, r: seq<Item>, capacity: nat, k: string, v: string)
    requires Unique(p + r) && forall x | x in p + r && x.key == k :: x.value == v
    requires Without(r, k) != [] && Total(p + [r[0]]) > capacity
    ensures Total(ToFront(p, k, v) + [Without(r, k)[0]]) > capacity
  {
    var a, next := ToFront(p, k, v), Without(r, k)[0];
    TotalConcat(p, [r[0]]);
    TotalConcat(a, [next]);
    assert Total([r[0]]) == |r[0].value| && Total([next]) == |next.value|;
    assert forall i | 0 <= i < |p| :: (p + r)[i] == p[i];
    assert (p + r)[|p|] == r[0];
    TotalToFront(p, k, v);
    if r[0].key == k {
      LookupMember(p, k);
    }
  }

  lemma ToFrontConcat(p: seq<Item>, r: seq<Item>, k: string, v: string)
    ensures ToFront(p + r, k, v) == ToFront(p, k, v) + Without(r, k)
  {
    WithoutConcat(p, r, k);
  }

  lemma FitThenReadParts(p: seq<Item>, r: seq<Item>, capacity: nat, k: string, v: string)
    requires Unique(p + r) && forall x | x in p + r && x.key == k :: x.value == v
    requires r != [] ==> Total(p + [r[0]]) > capacity
    ensures Fit(ToFront(p, k, v), capacity) == Fit(ToFront(p + r, k, v), capacity)
  {
    ToFrontConcat(p, r, k, v);
    if Without(r, k) != [] {
      NextStillTooMuch(p, r, capacity, k, v);
    }
    FitStops(ToFront(p, k, v), Without(r, k), capacity);
  }

  /** Cutting to size first and reading then, or reading first and cutting then: the same items. */
  lemma FitThenRead(order: seq<Item>, capacity: nat, k: string, v: string)
    requires Unique(order) && forall x | x in order && x.key == k :: x.value == v
    ensures Fit(ToFront(Fit(order, capacity), k, v), capacity) == Fit(ToFront(order, k, v), capacity)
  {
    FitIsLongest(order, capacity);
    var n := |Fit(order, capacity)|;
    assert Fit(order, capacity) == order[..n];
    assert order == order[..n] + order[n..];
    if n < |order| {
      assert order[..n + 1] == order[..n] + [order[n..][0]];
    }
    FitThenReadParts(order[..n], order[n..], capacity, k, v);
  }

  lemma ReadIsFit(c: Cache, order: seq<Item>, k: string, v: string)
    requires c.on && c.items == Fit(order, c.capacity)
    requires Unique(order) && forall x | x in order && x.key == k :: x.value == v
    ensures Read(c, k, v).items == Fit(ToFront(order, k, v), c.capacity)
    ensures Read(c, k, v).on && Read(c, k, v).capacity == c.capacity
    ensures Read(c, k, v).hits == c.hits + if Lookup(c.items, k).Some? then 1 else 0
  {
    FitThenRead(order, c.capacity, k, v);
    FitIsLongest(order, c.capacity);
    TotalToFront(c.items, k, v);
  }

  /** Used read-through, the cache always holds the longest front part of the last-access order that fits. */
  lemma {:induction false} StackProperty(c: Cache, store: map<string, string>, keys: seq<string>)
    requires c.on && c.items == [] && forall k | k in keys :: k in store
    ensures Reads(c, store, keys).items == Fit(Recency(store, keys), c.capacity)
    ensures Reads(c, store, keys).on && Reads(c, store, keys).capacity == c.capacity
    decreases |keys|
  {
    if keys == [] {
    } else {
      var n := |keys| - 1;
      StackProperty(c, store, keys[..n]);
      RecencyUnique(store, keys[..n]);
      ReadIsFit(Reads(c, store, keys[..n]), Recency(store, keys[..n]), keys[n], store[keys[n]]);
    }
  }

  lemma FitGrows(items: seq<Item>, small: nat, large: nat)
    requires small <= large
    ensures Fit(items, small) <= Fit(items, large)
  {
    FitIsLongest(items, small);
    FitIsLongest(items, large);
    assert items[..|Fit(items, small)|] == Fit(items, small);
  }

  /** Over the same reads a larger cache holds everything a smaller one does, in the same order, and hits as often. */
  lemma {:induction false} LargerContainsSmaller(a: Cache, b: Cache, store: map<string, string>, keys: seq<string>)
    requires a.on && b.on && a.items == b.items == [] && a.capacity <= b.capacity && a.hits <= b.hits
    requires forall k | k in keys :: k in store
    ensures Reads(a, store, keys).items <= Reads(b, store, keys).items
    ensures Reads(a, store, keys).hits <= Reads(b, store, keys).hits
    decreases |keys|
  {
    StackProperty(a, store, keys);
    StackProperty(b, store, keys);
    FitGrows(Recency(store, keys), a.capacity, b.capacity);
    if keys == [] {
    } else {
      var n := |keys| - 1;
      var order := Recency(store, keys[..n]);
      LargerContainsSmaller(a, b, store, keys[..n]);
      StackProperty(a, store, keys[..n]);
      StackProperty(b, store, keys[..n]);
      RecencyUnique(store, keys[..n]);
      ReadIsFit(Reads(a, store, keys[..n]), order, keys[n], store[keys[n]]);
      ReadIsFit(Reads(b, store, keys[..n]), order, keys[n], store[keys[n]]);
      var large, small := Fit(order, b.capacity), Fit(order, a.capacity);
      assert small == large[..|small|];
      WithoutPrefix(large, keys[n], |small|);
    }
  }

  /** The position of a key's last read. */
  ghost function LastRead(keys: seq<string>, k: string): int {
    if keys == [] then -1
    else if keys[|keys| - 1] == k then |keys| - 1
    else LastRead(keys[..|keys| - 1], k)
  }

  lemma {:induction false} LastReadBefore(keys: seq<string>, k: string)
    ensures -1 <= LastRead(keys, k) < |keys|
    ensures k in keys <==> LastRead(keys, k) >= 0
  {
    if keys == [] {
    } else {
      LastReadBefore(keys[..|keys| - 1], k);
      assert keys == keys[..|keys| - 1] + [keys[|keys| - 1]];
    }
  }

  ghost predicate ReadAfter(keys: seq<string>, a: Item, b: Item) { LastRead(keys, a.key) > LastRead(keys, b.key) }

  /** Every item stands before those whose last read is earlier. */
  ghost predicate NewestFirst(items: seq<Item>, keys: seq<string>) {
    forall i, j {:trigger ReadAfter(keys, items[i], items[j])} | 0 <= i < j < |items| ::
      ReadAfter(keys, items[i], items[j])
  }

  /** One more read: its key goes in front, the others keep their order. */
  lemma PushNewest(rest: seq<Item>, front: seq<string>, k: string, v: string)
    requires NewestFirst(rest, front) && forall x | x in rest :: x.key != k
    ensures NewestFirst([Item(k, v)] + rest, front + [k])
  {
    var items, keys := [Item(k, v)] + rest, front + [k];
    assert keys[..|front|] == front;
    forall i, j | 0 <= i < j < |items| ensures ReadAfter(keys, items[i], items[j]) {
      assert items[j] == rest[j - 1] && rest[j - 1] in rest;
      LastReadBefore(front, items[j].key);
      if i > 0 {
        assert items[i] == rest[i - 1] && rest[i - 1] in rest;
        assert ReadAfter(front, rest[i - 1], rest[j - 1]);
      }
    }
  }

  lemma WithoutNewestFirst(items: seq<Item>, p: nat, keys: seq<string>)
    requires p < |items| && NewestFirst(items, keys)
    ensures NewestFirst(items[..p] + items[p + 1..], keys)
  {
    var rest := items[..p] + items[p + 1..];
    forall i, j | 0 <= i < j < |rest| ensures ReadAfter(keys, rest[i], rest[j]) {
      assert ReadAfter(keys, items[if i < p then i else i + 1], items[if j < p then j else j + 1]);
    }
  }

  lemma WithoutNewest(order: seq<Item>, front: seq<string>, k: string)
    requires Unique(order) && NewestFirst(order, front)
    ensures NewestFirst(Without(order, k), front) && forall x | x in Without(order, k) :: x.key != k
  {
    WithoutKeys(order, k);
    LookupMember(order, k);
    if Lookup(order, k).Some? {
      var p :| 0 <= p < |order| && order[p] == Item(k, Lookup(order, k).value);
      WithoutPosition(order, p);
      WithoutNewestFirst(order, p, front);
    } else {
      WithoutAbsent(order, k);
    }
  }

  /** The order has exactly the keys read, each with its value, newest read first. */
  lemma {:induction false} RecencyIsLastRead(store: map<string, string>, keys: seq<string>)
    requires forall k | k in keys :: k in store
    ensures forall x :: x in Recency(store, keys) <==> x.key in keys && x.value == store[x.key]
    ensures NewestFirst(Recency(store, keys), keys)
  {
    if keys == [] {
    } else {
      var n := |keys| - 1;
      var front, k := keys[..n], keys[n];
      var order := Recency(store, front);
      RecencyIsLastRead(store, front);
      RecencyUnique(store, front);
      ToFrontMembers(order, k, store[k]);
      assert keys == front + [k];
      WithoutNewest(order, front, k);
      PushNewest(Without(order, k), front, k, store[k]);
    }
  }

  // ---------- Runs on the object ----------

  /** What the calls of a run return, in order. */
  ghost function Returns(c: Cache, calls: seq<Call>): (rs: seq<Option<string>>)
    ensures |rs| == |calls|
  {
    if calls == [] then []
    else
      var n := |calls| - 1;
      Returns(c, calls[..n]) + [Apply(Run(c, calls[..n]), calls[n]).1]
  }

  lemma {:induction false} ReturnsAt(c: Cache, calls: seq<Call>, i: nat)
    requires i < |calls|
    ensures Returns(c, calls)[i] == Apply(Run(c, calls[..i]), calls[i]).1
    decreases |calls|
  {
    var n := |calls| - 1;
    if i == n {
    } else {
      ReturnsAt(c, calls[..n], i);
      assert calls[..n][..i] == calls[..i] && calls[..n][i] == calls[i];
      assert Returns(c, calls)[i] == Returns(c, calls[..n])[i];
    }
  }

  /** Any one call. */
  method Do(l: Lru, call: Call) returns (r: Option<string>)
    requires l.Valid()
    modifies l
    ensures l.Valid() && (l.Value(), r) == Apply(old(l.Value()), call)
  {
    r := None;
    match call
    case Get(k) => r := l.Get(k);
    case Put(k, v) => l.Put(k, v);
    case Invalidate(k) => l.Invalidate(k);
    case Clear => l.Clear();
    case On(b) => l.SetOn(b);
    case Resize(n) => l.SetSize(n);
  }

  /** A run of calls, with what they return. */
  method Play(l: Lru, calls: seq<Call>) returns (rs: seq<Option<string>>)
    requires l.Valid()
    modifies l
    ensures l.Valid() && l.Value() == Run(old(l.Value()), calls) && rs == Returns(old(l.Value()), calls)
  {
    rs := [];
    for i := 0 to |calls|
      invariant l.Valid() && l.Value() == Run(old(l.Value()), calls[..i]) && rs == Returns(old(l.Value()), calls[..i])
    {
      assert calls[..i + 1][..i] == calls[..i];
      var r := Do(l, calls[i]);
      rs := rs + [r];
    }
    assert calls[..|calls|] == calls;
  }

  /**
   A new cache, over any run: every hit is the last put made while on and neither invalidated nor cleared
   since, and as long as everything put has room, there is a hit for each of them.
   */
  method PlayNew(calls: seq<Call>) returns (l: Lru, rs: seq<Option<string>>)
    ensures l.Valid() && |rs| == |calls|
    ensures forall i | 0 <= i < |calls| && calls[i].Get? && rs[i].Some? ::
              var puts := Recall(Memory(true, map[]), calls[..i]).puts;
              calls[i].key in puts && rs[i].value == puts[calls[i].key]
    ensures AllFit(Cache([], true, 0x10_0000, 0, 0), Memory(true, map[]), calls) ==>
              forall i | 0 <= i < |calls| && calls[i].Get? && Recall(Memory(true, map[]), calls[..i]).on ::
                rs[i].Some? <==> calls[i].key in Recall(Memory(true, map[]), calls[..i]).puts
  {
    l := new Lru();
    ghost var c := l.Value();
    rs := Play(l, calls);
    forall i | 0 <= i < |calls| && calls[i].Get? && rs[i].Some?
      ensures var puts := Recall(Memory(true, map[]), calls[..i]).puts;
              calls[i].key in puts && rs[i].value == puts[calls[i].key]
    {
      ReturnsAt(c, calls, i);
      HitsAreCurrent(c, Memory(true, map[]), calls[..i], calls[i].key);
    }
    if AllFit(c, Memory(true, map[]), calls) {
      forall i | 0 <= i < |calls| && calls[i].Get? && Recall(Memory(true, map[]), calls[..i]).on
        ensures rs[i].Some? <==> calls[i].key in Recall(Memory(true, map[]), calls[..i]).puts
      {
        ReturnsAt(c, calls, i);
        FitBefore(c, Memory(true, map[]), calls, i);
        NothingIsLost(c, Memory(true, map[]), calls[..i], calls[i].key);
      }
    }
  }

  /** Read-through use: what is missing is fetched from the store and put. */
  method ReadThrough(l: Lru, store: map<string, string>, keys: seq<string>)
    requires l.Valid() && forall k | k in keys :: k in store
    modifies l
    ensures l.Valid() && l.Value() == Reads(old(l.Value()), store, keys)
  {
    for i := 0 to |keys|
      invariant l.Valid() && l.Value() == Reads(old(l.Value()), store, keys[..i])
    {
      assert keys[..i + 1][..i] == keys[..i];
      var hit := l.Get(keys[i]);
      if hit.None? { l.Put(keys[i], store[keys[i]]); }
    }
    assert keys[..|keys|] == keys;
  }

  /**
   Two new caches over the same reads: each holds the longest front part of the last-access order that
   fits, so the larger one holds all the smaller one does, and it hits at least as often.
   */
  method ReadBoth(small: nat, large: nat, store: map<string, string>, keys: seq<string>) returns (a: Lru, b: Lru)
    requires small <= large && forall k | k in keys :: k in store
    ensures a.Valid() && a.items == Fit(Recency(store, keys), small)
    ensures b.Valid() && b.items == Fit(Recency(store, keys), large)
    ensures a.items <= b.items && a.hits <= b.hits
  {
    a := new Lru();
    a.SetSize(small);
    b := new Lru();
    b.SetSize(large);
    ghost var c, d := a.Value(), b.Value();
    ReadThrough(a, store, keys);
    ReadThrough(b, store, keys);
    StackProperty(c, store, keys);
    StackProperty(d, store, keys);
    LargerContainsSmaller(c, d, store, keys);
  }
}
