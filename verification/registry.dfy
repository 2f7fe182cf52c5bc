/** The algorithm registry of core/algorithm-registry.js: a `Map` from id
    to module and a `Map` from category to the ids registered under it,
    the card ordering by priority, the class lookup tables and
    `initializeAlgorithm`. */
module Registry {
  import opened Wrappers
  import opened Seqs
  import opened Sorting
  import MergeSort

  // ---------------------------------------------------------------------
  // JavaScript `Map`s keyed by strings.

  /** A `Map` as its entries in iteration order: the order in which the
      keys were first set. */
  type Table<V> = seq<(string, V)>

  /** `Array.from(map.keys())`. */
  function Keys<V>(t: Table<V>): (ks: seq<string>)
    ensures |ks| == |t| && forall i :: 0 <= i < |t| ==> ks[i] == t[i].0
  {
    if |t| == 0 then [] else [t[0].0] + Keys(t[1..])
  }

  /** `map.get(k)`: `None` for a key that was never set. */
  function Lookup<V>(t: Table<V>, k: string): (r: Option<V>)
    ensures r.None? <==> k !in Keys(t)
  {
    if |t| == 0 then None
    else if t[0].0 == k then Some(t[0].1)
    else
      assert Keys(t)[1..] == Keys(t[1..]);
      Lookup(t[1..], k)
  }

  /** `map.set(k, v)`: an existing key keeps its place and gets the new
      value; a new key goes last. */
  function Put<V>(t: Table<V>, k: string, v: V): (r: Table<V>)
  {
    if |t| == 0 then [(k, v)]
    else if t[0].0 == k then [(k, v)] + t[1..]
    else [t[0]] + Put(t[1..], k, v)
  }

  /** After `set(k, v)`, `get(k)` is `v` and every other key reads as
      before. */
  lemma {:induction false} PutLookup<V>(t: Table<V>, k: string, v: V, other: string)
    ensures Lookup(Put(t, k, v), k) == Some(v)
    ensures other != k ==> Lookup(Put(t, k, v), other) == Lookup(t, other)
  {
    if |t| > 0 && t[0].0 != k {
      PutLookup(t[1..], k, v, other);
      assert Put(t, k, v)[1..] == Put(t[1..], k, v);
    }
  }

  /** `set` leaves the key order alone for a known key and appends a new
      key at the end. */
  lemma {:induction false} PutKeys<V>(t: Table<V>, k: string, v: V)
    ensures Keys(Put(t, k, v)) == if k in Keys(t) then Keys(t) else Keys(t) + [k]
  {
    if |t| > 0 && t[0].0 != k {
      PutKeys(t[1..], k, v);
      assert Put(t, k, v)[1..] == Put(t[1..], k, v);
      assert Keys(t)[1..] == Keys(t[1..]);
      assert Keys(Put(t, k, v)) == [t[0].0] + Keys(Put(t[1..], k, v));
      assert k in Keys(t) <==> k in Keys(t[1..]);
    } else if |t| > 0 {
      assert Put(t, k, v)[1..] == t[1..];
    }
  }

  // ---------------------------------------------------------------------
  // The registry.

  /** The part of a module's `meta` the registry reads; an empty string
      stands for a falsy or missing field. */
  datatype Meta = Meta(name: string, category: string, cardClass: string)

  /** A module's `init`, when present: whether calling it throws. */
  datatype Init = Init(throws: bool)

  /** An algorithm module: its `meta` and `init`, either possibly
      missing. */
  datatype Module = Module(meta: Option<Meta>, init: Option<Init>)

  /** `algorithms` (id to module) and `categories` (category to ids). */
  datatype Registry = Registry(algorithms: Table<Module>, categories: Table<seq<string>>)

  /** The registry as its constructor builds it. */
  function Empty(): (r: Registry)
    ensures Keys(r.algorithms) == [] && Keys(r.categories) == []
  {
    Registry([], [])
  }

  /** `register` accepts a module only with both `meta` and `init`. */
  predicate Registrable(m: Module) {
    m.meta.Some? && m.init.Some?
  }

  /** The bucket a registered module goes to: `meta.category || 'other'`. */
  function CategoryOf(m: Module): string
    requires m.meta.Some?
  {
    if m.meta.value.category == "" then "other" else m.meta.value.category
  }

  /** The ids of bucket `c`, in the order they were pushed. */
  function Bucket(reg: Registry, c: string): seq<string> {
    Lookup(reg.categories, c).GetOr([])
  }

  /** `register(id, m)`: false with no change for a module lacking `meta`
      or `init`; otherwise the module is stored under `id` and `id` is
      pushed onto its category's bucket, which is created if needed. */
  function Register(reg: Registry, id: string, m: Module): (r: (Registry, bool))
    ensures !Registrable(m) ==> r == (reg, false)
    ensures Registrable(m) ==> r.1
  {
    if !Registrable(m) then (reg, false)
    else
      var c := CategoryOf(m);
      (Registry(Put(reg.algorithms, id, m), Put(reg.categories, c, Bucket(reg, c) + [id])), true)
  }

  /** `get(id)`: the module, or `None` for null. */
  function Get(reg: Registry, id: string): (r: Option<Module>)
    ensures r.None? <==> id !in Keys(reg.algorithms)
  {
    Lookup(reg.algorithms, id)
  }

  /** `getByCategory(c)`: each id of bucket `c` with what `get` finds for
      it; an unknown category gives the empty list. */
  function GetByCategory(reg: Registry, c: string): (r: seq<(string, Option<Module>)>)
    ensures c !in Keys(reg.categories) ==> r == []
    ensures |r| == |Bucket(reg, c)|
    ensures forall i :: 0 <= i < |r| ==> r[i].0 == Bucket(reg, c)[i]
    ensures forall i :: 0 <= i < |r| ==> r[i].1 == Get(reg, r[i].0)
  {
    var ids := Bucket(reg, c);
    seq(|ids|, i requires 0 <= i < |ids| => (ids[i], Get(reg, ids[i])))
  }

  /** `getAll()`: every id with its module, in first-registration order. */
  function GetAll(reg: Registry): (r: Table<Module>)
    ensures Keys(r) == Keys(reg.algorithms)
  {
    reg.algorithms
  }

  /** `getCategories()`: the category keys in creation order. */
  function GetCategories(reg: Registry): (r: seq<string>)
    ensures r == Keys(reg.categories)
  {
    Keys(reg.categories)
  }

  /** A successful `register(id, m)` makes `get(id)` return `m` and leaves
      every other id as it was; a rejected one changes nothing. */
  lemma RegisterGet(reg: Registry, id: string, m: Module, other: string)
    ensures Registrable(m) ==> Get(Register(reg, id, m).0, id) == Some(m)
    ensures other != id ==> Get(Register(reg, id, m).0, other) == Get(reg, other)
  {
    PutLookup(reg.algorithms, id, m, other);
  }

  /** A successful `register(id, m)` appends `id` to the end of its
      category's bucket and leaves every other bucket as it was. */
  lemma RegisterBucket(reg: Registry, id: string, m: Module, c: string)
    requires Registrable(m)
    ensures Bucket(Register(reg, id, m).0, c) ==
      if c == CategoryOf(m) then Bucket(reg, c) + [id] else Bucket(reg, c)
  {
    var k := CategoryOf(m);
    PutLookup(reg.categories, k, Bucket(reg, k) + [id], c);
  }

  /** A successful `register` lists its category last if it is new and
      otherwise leaves the category list alone. */
  lemma RegisterCategories(reg: Registry, id: string, m: Module)
    requires Registrable(m)
    ensures GetCategories(Register(reg, id, m).0) ==
      var c := CategoryOf(m);
      if c in GetCategories(reg) then GetCategories(reg) else GetCategories(reg) + [c]
  {
    var c := CategoryOf(m);
    PutKeys(reg.categories, c, Bucket(reg, c) + [id]);
  }

  /** Registering an id a second time, in the same category, replaces the
      stored module but leaves two copies of the id in the bucket. */
  lemma ReRegisterDuplicates(reg: Registry, id: string, m1: Module, m2: Module)
    requires Registrable(m1) && Registrable(m2) && CategoryOf(m1) == CategoryOf(m2)
    ensures var r := Register(Register(reg, id, m1).0, id, m2).0;
      Get(r, id) == Some(m2) && Bucket(r, CategoryOf(m1)) == Bucket(reg, CategoryOf(m1)) + [id, id]
  {
    var r1 := Register(reg, id, m1).0;
    RegisterGet(r1, id, m2, id);
    RegisterBucket(reg, id, m1, CategoryOf(m1));
    RegisterBucket(r1, id, m2, CategoryOf(m1));
  }

  // ---------------------------------------------------------------------
  // A run of registrations against a reference description.

  /** The registrations `rs` made in order, from `reg`. */
  function RegisterAll(reg: Registry, rs: seq<(string, Module)>): Registry
    decreases |rs|
  {
    if rs == [] then reg
    else Register(RegisterAll(reg, rs[..|rs| - 1]), rs[|rs| - 1].0, rs[|rs| - 1].1).0
  }

  /** No string occurs twice. */
  predicate NoDuplicates(s: seq<string>) {
    forall i, j :: 0 <= i < j < |s| ==> s[i] != s[j]
  }

  /** `s` with every string kept only at its first occurrence. */
  function FirstSeen(s: seq<string>): (r: seq<string>)
    ensures NoDuplicates(r)
    ensures forall x :: x in r <==> x in s
  {
    if s == [] then []
    else
      var init := FirstSeen(s[..|s| - 1]);
      var last := s[|s| - 1];
      assert forall x :: x in s <==> x in s[..|s| - 1] || x == last;
      if last in s[..|s| - 1] then init else init + [last]
  }

  /** The ids of the accepted registrations, in order. */
  function AcceptedIds(rs: seq<(string, Module)>): seq<string> {
    if rs == [] then []
    else
      var (id, m) := rs[|rs| - 1];
      AcceptedIds(rs[..|rs| - 1]) + (if Registrable(m) then [id] else [])
  }

  /** The categories of the accepted registrations, in order. */
  function AcceptedCategories(rs: seq<(string, Module)>): seq<string> {
    if rs == [] then []
    else
      var m := rs[|rs| - 1].1;
      AcceptedCategories(rs[..|rs| - 1]) + (if Registrable(m) then [CategoryOf(m)] else [])
  }

  /** The ids of the accepted registrations in category `c`, in order and
      with repeats. */
  function IdsIn(rs: seq<(string, Module)>, c: string): seq<string> {
    if rs == [] then []
    else
      var (id, m) := rs[|rs| - 1];
      IdsIn(rs[..|rs| - 1], c) + (if Registrable(m) && CategoryOf(m) == c then [id] else [])
  }

  /** The module of the last accepted registration of `id`. */
  function LastFor(rs: seq<(string, Module)>, id: string): Option<Module> {
    if rs == [] then None
    else
      var (i, m) := rs[|rs| - 1];
      if i == id && Registrable(m) then Some(m) else LastFor(rs[..|rs| - 1], id)
  }

  /** After a run of registrations from the empty registry, `get(id)`
      returns the module of the last accepted registration of `id`, or
      null if there was none. */
  lemma {:induction false} RunGet(rs: seq<(string, Module)>, id: string)
    ensures Get(RegisterAll(Empty(), rs), id) == LastFor(rs, id)
    decreases |rs|
  {
    if rs != [] {
      var (i, m) := rs[|rs| - 1];
      RunGet(rs[..|rs| - 1], id);
      RegisterGet(RegisterAll(Empty(), rs[..|rs| - 1]), i, m, id);
    }
  }

  /** After a run of registrations, bucket `c` holds the ids of the
      accepted registrations in `c`, in order, an id registered twice
      appearing twice. */
  lemma {:induction false} RunBucket(rs: seq<(string, Module)>, c: string)
    ensures Bucket(RegisterAll(Empty(), rs), c) == IdsIn(rs, c)
    decreases |rs|
  {
    if rs != [] {
      var (i, m) := rs[|rs| - 1];
      RunBucket(rs[..|rs| - 1], c);
      if Registrable(m) {
        RegisterBucket(RegisterAll(Empty(), rs[..|rs| - 1]), i, m, c);
      }
    }
  }

  /** After a run of registrations, `getCategories()` lists each category
      of an accepted registration once, in order of first use. */
  lemma {:induction false} RunCategories(rs: seq<(string, Module)>)
    ensures GetCategories(RegisterAll(Empty(), rs)) == FirstSeen(AcceptedCategories(rs))
    ensures NoDuplicates(GetCategories(RegisterAll(Empty(), rs)))
    decreases |rs|
  {
    if rs != [] {
      var (i, m) := rs[|rs| - 1];
      var init := rs[..|rs| - 1];
      RunCategories(init);
      if Registrable(m) {
        RegisterCategories(RegisterAll(Empty(), init), i, m);
        var cs := AcceptedCategories(rs);
        assert cs == AcceptedCategories(init) + [CategoryOf(m)];
        assert cs[..|cs| - 1] == AcceptedCategories(init);
        assert FirstSeen(cs) == if CategoryOf(m) in AcceptedCategories(init)
          then FirstSeen(AcceptedCategories(init))
          else FirstSeen(AcceptedCategories(init)) + [CategoryOf(m)];
      } else {
        assert AcceptedCategories(rs) == AcceptedCategories(init);
      }
    }
  }

  /** After a run of registrations, `getAll()` lists each accepted id once,
      in order of its first registration. */
  lemma {:induction false} RunAll(rs: seq<(string, Module)>)
    ensures Keys(GetAll(RegisterAll(Empty(), rs))) == FirstSeen(AcceptedIds(rs))
    decreases |rs|
  {
    if rs != [] {
      var (i, m) := rs[|rs| - 1];
      var init := rs[..|rs| - 1];
      RunAll(init);
      if Registrable(m) {
        PutKeys(RegisterAll(Empty(), init).algorithms, i, m);
        var ids := AcceptedIds(rs);
        assert ids == AcceptedIds(init) + [i];
        assert ids[..|ids| - 1] == AcceptedIds(init);
        assert FirstSeen(ids) == if i in AcceptedIds(init)
          then FirstSeen(AcceptedIds(init))
          else FirstSeen(AcceptedIds(init)) + [i];
      } else {
        assert AcceptedIds(rs) == AcceptedIds(init);
      }
    }
  }

  /** An id in some bucket was accepted at least once. */
  lemma {:induction false} IdsInAccepted(rs: seq<(string, Module)>, c: string, x: string)
    requires x in IdsIn(rs, c)
    ensures LastFor(rs, x).Some?
    decreases |rs|
  {
    var (i, m) := rs[|rs| - 1];
    if !(i == x && Registrable(m)) {
      IdsInAccepted(rs[..|rs| - 1], c, x);
    }
  }

  /** After a run of registrations, every entry `getByCategory` returns
      carries a module: no id in a bucket is missing from the id map. */
  lemma RunByCategoryFound(rs: seq<(string, Module)>, c: string, k: nat)
    requires k < |GetByCategory(RegisterAll(Empty(), rs), c)|
    ensures GetByCategory(RegisterAll(Empty(), rs), c)[k].1.Some?
  {
    var reg := RegisterAll(Empty(), rs);
    RunBucket(rs, c);
    var x := Bucket(reg, c)[k];
    IdsInAccepted(rs, c, x);
    RunGet(rs, x);
  }

  // ---------------------------------------------------------------------
  // Cards.

  /** The card classes in the order their cards come first. */
  const PriorityOrder: seq<string> :=
    ["card-best", "card-fast", "card-search", "card-educational", "card-hidden", "card-special"]

  /** A card class's place in the priority list, 999 when it is not
      listed. */
  function Priority(cardClass: string): (r: int)
    ensures cardClass in PriorityOrder ==> 0 <= r < |PriorityOrder| && PriorityOrder[r] == cardClass
    ensures cardClass in PriorityOrder ==> cardClass !in PriorityOrder[..r]
    ensures cardClass !in PriorityOrder ==> r == 999
  {
    var i := IndexOf(PriorityOrder, cardClass);
    if i == -1 then 999 else i
  }

  /** The priority of a `getByCategory` entry, read from its
      `meta.cardClass` (an entry without one counts as unlisted). */
  function Rank(card: (string, Option<Module>)): int {
    if card.1.Some? && card.1.value.meta.Some? then Priority(card.1.value.meta.value.cardClass)
    else 999
  }

  /** `algorithms.sort` by `aPriority - bPriority`. The engine's sort is
      stable; the stable sort of a list by a key is unique, so any stable
      sort gives the list a stable merge sort gives. */
  function SortCards(cards: seq<(string, Option<Module>)>): (r: seq<(string, Option<Module>)>)
    ensures |r| == |cards|
  {
    MergeSort.Sort(cards, Rank)
  }

  /** The sorted cards are the same cards, in nondecreasing priority, with
      cards of equal priority in their registration order; no other list
      has those three properties. */
  lemma CardOrder(cards: seq<(string, Option<Module>)>, other: seq<(string, Option<Module>)>)
    ensures multiset(SortCards(cards)) == multiset(cards)
    ensures forall i, j :: 0 <= i < j < |cards| ==> Rank(SortCards(cards)[i]) <= Rank(SortCards(cards)[j])
    ensures StableFor(SortCards(cards), cards, Rank)
    ensures SortedBy(other, Rank) && StableFor(other, cards, Rank) ==> other == SortCards(cards)
  {
    MergeSort.SortCorrect(cards, Rank);
    if SortedBy(other, Rank) && StableFor(other, cards, Rank) {
      MergeSort.SortIsTheStableSort(cards, other, Rank);
    }
  }

  // ---------------------------------------------------------------------
  // Class lookups.

  /** `table[key] || fallback`, for a table whose values are all
      non-empty. */
  function LookupOr(t: Table<string>, key: string, fallback: string): (r: string)
    ensures key !in Keys(t) ==> r == fallback
    ensures key in Keys(t) ==> Lookup(t, key) == Some(r)
  {
    Lookup(t, key).GetOr(fallback)
  }

  const BadgeClasses: Table<string> := [
    ("card-best", "best-badge"), ("card-fast", "speed-badge"),
    ("card-educational", "edu-badge"), ("card-search", "search-badge"),
    ("card-hidden", "hidden-badge"), ("card-special", "special-badge")]

  const IconClasses: Table<string> := [
    ("sorting", "sort"), ("search", "search"), ("data-structure", "layer-group"),
    ("graph", "project-diagram"), ("tree", "sitemap")]

  const MetricIcons: Table<string> := [
    ("card-best", "rocket"), ("card-fast", "tachometer-alt"),
    ("card-educational", "graduation-cap"), ("card-search", "bullseye"),
    ("card-hidden", "gem"), ("card-special", "magic")]

  /** The effect markup of each card class, named here by its effect's
      CSS class only. */
  const CardEffectTable: Table<string> := [
    ("card-best", "icon-sparkles"), ("card-fast", "lightning-effect"),
    ("card-educational", "bubble-effect"), ("card-search", "search-rays"),
    ("card-hidden", "gem-sparkle"), ("card-special", "rainbow-effect")]

  /** `getBadgeClass`, `getIconClass`, `getMetricIcon`, `getCardEffects`. */
  function BadgeClass(cardClass: string): string { LookupOr(BadgeClasses, cardClass, "badge") }
  function IconClass(category: string): string { LookupOr(IconClasses, category, "cog") }
  function MetricIcon(cardClass: string): string { LookupOr(MetricIcons, cardClass, "clock") }
  function CardEffects(cardClass: string): string { LookupOr(CardEffectTable, cardClass, "") }

  /** The badge, metric and effect tables list exactly the classes of the
      priority list. */
  lemma CardTablesKeys()
    ensures Keys(BadgeClasses) == ["card-best", "card-fast", "card-educational", "card-search", "card-hidden", "card-special"]
    ensures Keys(MetricIcons) == Keys(BadgeClasses) && Keys(CardEffectTable) == Keys(BadgeClasses)
    ensures forall k :: k in Keys(BadgeClasses) <==> k in PriorityOrder
  {
  }

  /** A card class outside the priority list gets the plain `badge`, the
      `clock` icon and no effect; a listed one gets its own of each. */
  lemma CardLookupDefaults(cardClass: string)
    ensures cardClass !in PriorityOrder ==>
      BadgeClass(cardClass) == "badge" && MetricIcon(cardClass) == "clock" && CardEffects(cardClass) == ""
    ensures cardClass in PriorityOrder ==>
      Lookup(BadgeClasses, cardClass).Some? && Lookup(MetricIcons, cardClass).Some?
      && Lookup(CardEffectTable, cardClass).Some?
  {
    CardTablesKeys();
  }

  /** A category other than the five listed gets the `cog` icon. */
  lemma IconDefault(category: string)
    ensures category !in ["sorting", "search", "data-structure", "graph", "tree"] ==> IconClass(category) == "cog"
  {
    assert Keys(IconClasses) == ["sorting", "search", "data-structure", "graph", "tree"];
  }

  // ---------------------------------------------------------------------
  // Starting a visualization.

  /** `initializeAlgorithm(id)`: false when `get` finds nothing or `init`
      throws, true when `init` returns. */
  function InitializeAlgorithm(reg: Registry, id: string): (ok: bool)
    ensures ok <==> Get(reg, id).Some? && Get(reg, id).value.init.Some? && !Get(reg, id).value.init.value.throws
  {
    match Get(reg, id)
    case None => false
    case Some(m) => m.init.Some? && !m.init.value.throws
  }

  /** After a run of registrations, starting `id` succeeds exactly when it
      was accepted at least once and the last accepted module's `init`
      does not throw. */
  lemma RunInitialize(rs: seq<(string, Module)>, id: string)
    ensures InitializeAlgorithm(RegisterAll(Empty(), rs), id) <==>
      LastFor(rs, id).Some? && LastFor(rs, id).value.init == Some(Init(false))
  {
    RunGet(rs, id);
    LastForRegistrable(rs, id);
  }

  /** What `LastFor` finds was accepted. */
  lemma {:induction false} LastForRegistrable(rs: seq<(string, Module)>, id: string)
    ensures LastFor(rs, id).Some? ==> Registrable(LastFor(rs, id).value)
    decreases |rs|
  {
    if rs != [] {
      LastForRegistrable(rs[..|rs| - 1], id);
    }
  }
}
