/**
 * The child-view table `views` of a layout view, as values: which key holds
 * which child, the counter that names new children, and the calls made on
 * children so far. The functions here say what `createView`, `renderView`,
 * `removeView`, the creation pass of `renderConfig` and `remove` do to it.
 */
module Slots {
  import opened JsValues

  /** A value stored under a key of `views`: a child, or `undefined`. */
  datatype Slot = Vacant | Live(child: nat)

  /** A call made on a child view or its constructor. */
  datatype Call =
    | Construct(key: string, child: nat, ctor: nat, options: Option<Options>)
    | RenderChild(child: nat)
    | RemoveChild(child: nat)

  /** The errors the operations throw. */
  datatype Error =
    | DuplicateKey(key: string)    // createView: a view with this key already exists
    | UnknownKey(key: string)      // renderView, removeView: no view with this key
    | NotAConstructor(key: string) // `new config.constructor(…)` on a value that is not a function
    | MissingConfig(key: string)   // removeView: `Object.assign(this.config[key], …)` with no such entry

  datatype Outcome<+T> = Done(value: T) | Thrown(error: Error)

  /**
   * `keys` are the keys of `views` in enumeration order, `slots` their values,
   * `owners` the key each child so far was constructed for (a child's
   * handle is its index there, so `|owners|` is the next handle), `calls`
   * everything done to children.
   */
  datatype Table = Table(keys: seq<string>, slots: map<string, Slot>, owners: seq<string>, calls: seq<Call>) {
    /**
     * `keys` lists every key of `slots` exactly once, in enumeration order,
     * and a child is held only under the key it was constructed for.
     */
    ghost predicate Valid() {
      && Distinct(keys)
      && EnumerationOrdered(keys)
      && (forall i :: 0 <= i < |keys| ==> keys[i] in slots)
      && |slots| == |keys|
      && (forall k :: k in slots && slots[k].Live? ==> slots[k].child < |owners| && owners[slots[k].child] == k)
    }

    /** `views[key] !== undefined`. */
    predicate Defined(key: string) {
      key in slots && slots[key].Live?
    }
  }

  datatype Step<+T> = Step(table: Table, outcome: Outcome<T>)

  /** `config.enabled === false`. */
  predicate Disabled(c: SlotConfig) {
    c.enabled == Bool(false)
  }

  /** Whether a child created now is rendered at once: `this.rendered === true && config.render !== false`. */
  predicate RendersAtCreation(c: SlotConfig, rendered: bool) {
    rendered && c.render != Bool(false)
  }

  /** `renderView(key)`: renders the child under `key`; throws when there is none. */
  function RenderView(t: Table, key: string): (s: Step<()>)
    ensures !t.Defined(key) ==> s == Step(t, Thrown(UnknownKey(key)))
    ensures t.Defined(key) ==>
              && s.outcome.Done?
              && s.table == t.(calls := t.calls + [RenderChild(t.slots[key].child)])
  {
    if !t.Defined(key) then Step(t, Thrown(UnknownKey(key)))
    else Step(t.(calls := t.calls + [RenderChild(t.slots[key].child)]), Done(()))
  }

  /**
   * `createView(key, config)`: throws when a child already exists under
   * `key` (before looking at `enabled`); returns undefined and changes
   * nothing for a disabled config; otherwise constructs a fresh child with
   * the config's options, stores it under `key` and no other key, renders it
   * when the layout is rendered and the config does not say `render: false`,
   * and returns it.
   */
  function CreateView(t: Table, key: string, c: SlotConfig, rendered: bool): (s: Step<Slot>)
    ensures |t.calls| <= |s.table.calls|
    ensures s.table.calls[..|t.calls|] == t.calls
  {
    if t.Defined(key) then Step(t, Thrown(DuplicateKey(key)))
    else if Disabled(c) then Step(t, Done(Vacant))
    else if !c.ctor.Func? then Step(t, Thrown(NotAConstructor(key)))
    else
      var id := |t.owners|;
      var stored := Table(if key in t.slots then t.keys else InsertKey(t.keys, key),
                          t.slots[key := Live(id)], t.owners + [key],
                          t.calls + [Construct(key, id, c.ctor.id, c.options)]);
      var table := if RendersAtCreation(c, rendered) then RenderView(stored, key).table else stored;
      Step(table, Done(Live(id)))
  }

  /** What `createView` does, case by case. */
  lemma CreateViewOutcome(t: Table, key: string, c: SlotConfig, rendered: bool)
    ensures var s := CreateView(t, key, c, rendered);
            && (t.Defined(key) ==> s == Step(t, Thrown(DuplicateKey(key))))
            && (!t.Defined(key) && Disabled(c) ==> s == Step(t, Done(Vacant)))
            && (!t.Defined(key) && !Disabled(c) && !c.ctor.Func? ==> s == Step(t, Thrown(NotAConstructor(key))))
            && (!t.Defined(key) && !Disabled(c) && c.ctor.Func? ==>
                  && s.outcome == Done(Live(|t.owners|))
                  && s.table.slots == t.slots[key := Live(|t.owners|)]
                  && s.table.keys == (if key in t.slots then t.keys else InsertKey(t.keys, key))
                  && s.table.owners == t.owners + [key]
                  && s.table.calls == t.calls + [Construct(key, |t.owners|, c.ctor.id, c.options)]
                                      + (if RendersAtCreation(c, rendered) then [RenderChild(|t.owners|)] else []))
            && s.table.calls[..|t.calls|] == t.calls
            && (s.outcome.Done? && key in t.slots ==> key in s.table.slots && s.table.slots[key] == s.outcome.value)
  {
  }

  /**
   * `createView` keeps the table valid, and a child it builds is new: no
   * child of the table before has its handle.
   */
  lemma CreateViewKeepsValid(t: Table, key: string, c: SlotConfig, rendered: bool)
    requires t.Valid()
    ensures var s := CreateView(t, key, c, rendered);
            && s.table.Valid()
            && (s.outcome.Done? && s.outcome.value.Live? ==>
                  forall k :: k in t.slots && t.slots[k].Live? ==> t.slots[k].child != s.outcome.value.child)
  {
    if !t.Defined(key) && !Disabled(c) && c.ctor.Func? {
      StoreKeepsValid(t, key, [Construct(key, |t.owners|, c.ctor.id, c.options)]);
    }
  }

  /** Storing a new child under a key without one keeps the table valid, whatever calls are logged. */
  lemma StoreKeepsValid(t: Table, key: string, added: seq<Call>)
    requires t.Valid() && !t.Defined(key)
    ensures Table(if key in t.slots then t.keys else InsertKey(t.keys, key), t.slots[key := Live(|t.owners|)],
                  t.owners + [key], t.calls + added).Valid()
  {
    if key !in t.slots {
      var keys := InsertKey(t.keys, key);
      InsertKeyOrdered(t.keys, key);
      forall i | 0 <= i < |keys| ensures keys[i] in t.slots[key := Live(|t.owners|)] {
        assert keys[i] in keys;
      }
    }
  }

  /** The first half of `removeView`: the child under `key` is removed and its slot cleared. */
  function Cleared(t: Table, key: string): (c: Table)
    requires t.Defined(key)
    ensures c.keys == t.keys && c.owners == t.owners
    ensures c.slots == t.slots[key := Vacant]
    ensures c.calls == t.calls + [RemoveChild(t.slots[key].child)]
    ensures t.Valid() ==> c.Valid()
  {
    t.(slots := t.slots[key := Vacant], calls := t.calls + [RemoveChild(t.slots[key].child)])
  }

  /**
   * `removeView(key)`: throws when there is no child under `key`; otherwise
   * removes that child, clears the slot, and stores what `createView` makes
   * from `this.config[key]` (with `renderOnInitialize: false` assigned to the
   * entry): a new child, or undefined when the entry is disabled. `entry` is
   * `this.config[key]`, `None` when the config has no such key.
   */
  function RemoveView(t: Table, key: string, entry: Option<SlotConfig>, rendered: bool): (s: Step<Slot>)
    ensures s.outcome == Thrown(UnknownKey(key)) <==> !t.Defined(key)
    ensures !t.Defined(key) ==> s.table == t
  {
    if !t.Defined(key) then Step(t, Thrown(UnknownKey(key)))
    else
      var cleared := Cleared(t, key);
      match entry
      case None => Step(cleared, Thrown(MissingConfig(key)))
      case Some(c) =>
        var created := CreateView(cleared, key, c.(renderOnInitialize := Bool(false)), rendered);
        if created.outcome.Thrown? then created
        else Step(created.table.(slots := created.table.slots[key := created.outcome.value]), created.outcome)
  }

  /**
   * What `removeView` does, case by case: nothing without a child under
   * `key`; otherwise the child's removal comes first, the other slots stay,
   * and the slot then holds what the entry makes of it.
   */
  lemma RemoveViewOutcome(t: Table, key: string, entry: Option<SlotConfig>, rendered: bool)
    ensures var s := RemoveView(t, key, entry, rendered);
            && (!t.Defined(key) ==> s == Step(t, Thrown(UnknownKey(key))))
            && (t.Defined(key) ==>
                  && s.table.keys == t.keys
                  && s.table.slots.Keys == t.slots.Keys
                  && |s.table.calls| > |t.calls|
                  && s.table.calls[..|t.calls| + 1] == t.calls + [RemoveChild(t.slots[key].child)]
                  && (forall k :: k in t.slots && k != key ==> s.table.slots[k] == t.slots[k]))
            && (t.Defined(key) && entry.None? ==> s.outcome == Thrown(MissingConfig(key)) && s.table.slots[key] == Vacant)
            && (t.Defined(key) && entry.Some? && Disabled(entry.value) ==>
                  s.outcome == Done(Vacant) && s.table.slots[key] == Vacant)
            && (t.Defined(key) && entry.Some? && !Disabled(entry.value) && !entry.value.ctor.Func? ==>
                  s.outcome == Thrown(NotAConstructor(key)) && s.table.slots[key] == Vacant)
            && (t.Defined(key) && entry.Some? && !Disabled(entry.value) && entry.value.ctor.Func? ==>
                  && s.outcome == Done(Live(|t.owners|))
                  && s.table.slots[key] == Live(|t.owners|)
                  && |s.table.calls| > |t.calls| + 1
                  && s.table.calls[|t.calls| + 1] == Construct(key, |t.owners|, entry.value.ctor.id, entry.value.options))
  {
    if t.Defined(key) && entry.Some? {
      var cleared := Cleared(t, key);
      var created := CreateView(cleared, key, entry.value.(renderOnInitialize := Bool(false)), rendered);
      assert created.table.calls[..|t.calls| + 1] == created.table.calls[..|cleared.calls|];
    }
  }

  /**
   * `removeView` keeps the table valid, and a child it builds is new: no
   * child of the table before has its handle.
   */
  lemma RemoveViewKeepsValid(t: Table, key: string, entry: Option<SlotConfig>, rendered: bool)
    requires t.Valid()
    ensures var s := RemoveView(t, key, entry, rendered);
            && s.table.Valid()
            && (s.outcome.Done? && s.outcome.value.Live? ==>
                  forall k :: k in t.slots && t.slots[k].Live? ==> t.slots[k].child != s.outcome.value.child)
  {
    if t.Defined(key) && entry.Some? {
      var cleared := Cleared(t, key);
      var created := CreateView(cleared, key, entry.value.(renderOnInitialize := Bool(false)), rendered);
      CreateViewKeepsValid(cleared, key, entry.value.(renderOnInitialize := Bool(false)), rendered);
      CreateViewOutcome(cleared, key, entry.value.(renderOnInitialize := Bool(false)), rendered);
      if created.outcome.Done? {
        assert created.table.slots[key := created.outcome.value] == created.table.slots;
      }
    }
  }

  /**
   * The creation pass of `renderConfig`: `createView` for every key of `ks`
   * in order, with that key's config; the first error stops the pass.
   */
  function CreateAll(t: Table, cfg: Config<SlotConfig>, ks: seq<string>, rendered: bool): (s: Step<()>)
    requires forall k :: k in ks ==> k in cfg.entries
    ensures |t.calls| <= |s.table.calls|
    ensures s.table.calls[..|t.calls|] == t.calls
    decreases |ks|
  {
    if ks == [] then Step(t, Done(()))
    else
      var first := CreateView(t, ks[0], cfg.entries[ks[0]], rendered);
      if first.outcome.Thrown? then Step(first.table, Thrown(first.outcome.error))
      else CreateAll(first.table, cfg, ks[1..], rendered)
  }

  /** A creation pass keeps the table valid. */
  lemma {:induction false} CreateAllKeepsValid(t: Table, cfg: Config<SlotConfig>, ks: seq<string>, rendered: bool)
    requires forall k :: k in ks ==> k in cfg.entries
    requires t.Valid()
    ensures CreateAll(t, cfg, ks, rendered).table.Valid()
    decreases |ks|
  {
    if ks != [] {
      var first := CreateView(t, ks[0], cfg.entries[ks[0]], rendered);
      CreateViewKeepsValid(t, ks[0], cfg.entries[ks[0]], rendered);
      if first.outcome.Done? {
        assert forall k :: k in ks[1..] ==> k in ks;
        CreateAllKeepsValid(first.table, cfg, ks[1..], rendered);
      }
    }
  }

  /**
   * A creation pass only adds calls and handles, never touches a slot that
   * holds a child, and leaves the keys outside `ks` alone.
   */
  lemma {:induction false} CreateAllFrame(t: Table, cfg: Config<SlotConfig>, ks: seq<string>, rendered: bool)
    requires forall k :: k in ks ==> k in cfg.entries
    ensures var s := CreateAll(t, cfg, ks, rendered);
            && |t.calls| <= |s.table.calls| && s.table.calls[..|t.calls|] == t.calls
            && |t.owners| <= |s.table.owners|
            && (forall k :: t.Defined(k) ==> s.table.Defined(k) && s.table.slots[k] == t.slots[k])
            && (forall k :: k !in ks ==> (k in s.table.slots <==> k in t.slots))
            && (forall k :: k !in ks && k in t.slots ==> s.table.slots[k] == t.slots[k])
    decreases |ks|
  {
    if ks != [] {
      var first := CreateView(t, ks[0], cfg.entries[ks[0]], rendered);
      CreateViewOutcome(t, ks[0], cfg.entries[ks[0]], rendered);
      if first.outcome.Done? {
        assert forall k :: k in ks[1..] ==> k in ks;
        CreateAllFrame(first.table, cfg, ks[1..], rendered);
        var s := CreateAll(first.table, cfg, ks[1..], rendered);
        assert s.table.calls[..|t.calls|] == s.table.calls[..|first.table.calls|][..|t.calls|];
      }
    }
  }

  /** The keys of the `Construct` calls, in order. */
  function ConstructedKeys(calls: seq<Call>): seq<string> {
    if calls == [] then []
    else (if calls[0].Construct? then [calls[0].key] else []) + ConstructedKeys(calls[1..])
  }

  lemma {:induction false} ConstructedKeysAppend(a: seq<Call>, b: seq<Call>)
    ensures ConstructedKeys(a + b) == ConstructedKeys(a) + ConstructedKeys(b)
  {
    if a == [] {
      assert a + b == b;
    } else {
      assert (a + b)[0] == a[0];
      assert (a + b)[1..] == a[1..] + b;
      ConstructedKeysAppend(a[1..], b);
    }
  }

  /** The keys of `ks` whose config is not disabled, in order. */
  function EnabledKeys(cfg: Config<SlotConfig>, ks: seq<string>): seq<string>
    requires forall k :: k in ks ==> k in cfg.entries
  {
    if ks == [] then []
    else (if Disabled(cfg.entries[ks[0]]) then [] else [ks[0]]) + EnabledKeys(cfg, ks[1..])
  }

  /**
   * A creation pass over distinct keys, none of which holds a child yet and
   * each of which is disabled or has a resolved constructor, succeeds and
   * constructs exactly one child per enabled key, in the order of `ks`;
   * afterwards a key holds a child exactly when its config is enabled.
   */
  lemma {:induction false} CreateAllInOrder(t: Table, cfg: Config<SlotConfig>, ks: seq<string>, rendered: bool)
    requires Distinct(ks)
    requires forall k :: k in ks ==> k in cfg.entries && !t.Defined(k)
    requires forall k :: k in ks && !Disabled(cfg.entries[k]) ==> cfg.entries[k].ctor.Func?
    ensures var s := CreateAll(t, cfg, ks, rendered);
            && s.outcome == Done(())
            && ConstructedKeys(s.table.calls[|t.calls|..]) == EnabledKeys(cfg, ks)
            && forall k :: k in ks ==> (s.table.Defined(k) <==> !Disabled(cfg.entries[k]))
    decreases |ks|
  {
    if ks != [] {
      var k0, rest := ks[0], ks[1..];
      DistinctTail(ks);
      var first := CreateView(t, k0, cfg.entries[k0], rendered);
      CreatedKeys(t, k0, cfg.entries[k0], rendered);
      assert forall k :: k in rest ==> k in ks;
      CreateAllInOrder(first.table, cfg, rest, rendered);
      CreateAllFrame(first.table, cfg, rest, rendered);
      var s := CreateAll(first.table, cfg, rest, rendered);
      assert CreateAll(t, cfg, ks, rendered) == s;
      SplitAdded(t.calls, first.table.calls, s.table.calls);
    }
  }

  /** One successful `createView` on a free key adds one `Construct` call, for that key, unless the config is disabled. */
  lemma CreatedKeys(t: Table, key: string, c: SlotConfig, rendered: bool)
    requires !t.Defined(key) && (!Disabled(c) ==> c.ctor.Func?)
    ensures var s := CreateView(t, key, c, rendered);
            ConstructedKeys(s.table.calls[|t.calls|..]) == if Disabled(c) then [] else [key]
  {
    var s := CreateView(t, key, c, rendered);
    var added := s.table.calls[|t.calls|..];
    if Disabled(c) {
      assert added == [];
    } else if RendersAtCreation(c, rendered) {
      assert added == [Construct(key, |t.owners|, c.ctor.id, c.options), RenderChild(|t.owners|)];
      assert added[1..] == [RenderChild(|t.owners|)] && added[1..][1..] == [];
      assert ConstructedKeys(added[1..]) == [];
    } else {
      assert added == [Construct(key, |t.owners|, c.ctor.id, c.options)];
    }
  }

  /** The calls added by two successive steps are those of the first step followed by those of the second. */
  lemma SplitAdded(a: seq<Call>, b: seq<Call>, c: seq<Call>)
    requires |a| <= |b| <= |c| && b[..|a|] == a && c[..|b|] == b
    ensures ConstructedKeys(c[|a|..]) == ConstructedKeys(b[|a|..]) + ConstructedKeys(c[|b|..])
  {
    assert c[|a|..] == b[|a|..] + c[|b|..];
    ConstructedKeysAppend(b[|a|..], c[|b|..]);
  }

  /**
   * A second creation pass, when every enabled key already holds a child
   * and some key is enabled, throws a duplicate-key error and changes
   * nothing: rendering a layout twice fails.
   */
  lemma {:induction false} SecondPassThrows(t: Table, cfg: Config<SlotConfig>, ks: seq<string>, rendered: bool)
    requires forall k :: k in ks ==> k in cfg.entries
    requires forall k :: k in ks && !Disabled(cfg.entries[k]) ==> t.Defined(k)
    requires EnabledKeys(cfg, ks) != []
    ensures var s := CreateAll(t, cfg, ks, rendered);
            s.outcome.Thrown? && s.outcome.error.DuplicateKey? && s.table == t
    decreases |ks|
  {
    if !t.Defined(ks[0]) {
      assert forall k :: k in ks[1..] ==> k in ks;
      SecondPassThrows(t, cfg, ks[1..], rendered);
    }
  }

  /** Rendering the same configuration twice from a table without those children throws on the second pass. */
  lemma RenderTwiceThrows(t: Table, cfg: Config<SlotConfig>, ks: seq<string>, rendered: bool)
    requires Distinct(ks)
    requires forall k :: k in ks ==> k in cfg.entries && !t.Defined(k)
    requires forall k :: k in ks && !Disabled(cfg.entries[k]) ==> cfg.entries[k].ctor.Func?
    requires EnabledKeys(cfg, ks) != []
    ensures var once := CreateAll(t, cfg, ks, rendered);
            var twice := CreateAll(once.table, cfg, ks, rendered);
            && once.outcome.Done?
            && twice.outcome.Thrown? && twice.outcome.error.DuplicateKey?
            && twice.table == once.table
  {
    CreateAllInOrder(t, cfg, ks, rendered);
    SecondPassThrows(CreateAll(t, cfg, ks, rendered).table, cfg, ks, rendered);
  }

  /** The calls `remove` makes: `remove()` on the child under each key, in the order of the keys. */
  function RemovalCalls(keys: seq<string>, slots: map<string, Slot>): (calls: seq<Call>)
    requires forall k :: k in keys ==> k in slots && slots[k].Live?
    ensures |calls| == |keys|
    ensures forall i :: 0 <= i < |keys| ==> calls[i] == RemoveChild(slots[keys[i]].child)
  {
    if keys == [] then [] else [RemoveChild(slots[keys[0]].child)] + RemovalCalls(keys[1..], slots)
  }

  /** The children held under `keys`. */
  function ChildrenOf(keys: seq<string>, slots: map<string, Slot>): set<nat>
    requires forall k :: k in keys ==> k in slots && slots[k].Live?
  {
    set k | k in keys :: slots[k].child
  }

  /**
   * `remove` calls `remove()` exactly once on every child of the table and
   * on nothing else.
   */
  lemma {:induction false} EachChildRemovedOnce(keys: seq<string>, slots: map<string, Slot>)
    requires Distinct(keys)
    requires forall k :: k in keys ==> k in slots && slots[k].Live?
    requires forall k, k' :: k in keys && k' in keys && k != k' ==> slots[k].child != slots[k'].child
    ensures forall c :: c in RemovalCalls(keys, slots) ==> c.RemoveChild?
    ensures forall id :: multiset(RemovalCalls(keys, slots))[RemoveChild(id)] ==
                         if id in ChildrenOf(keys, slots) then 1 else 0
    decreases |keys|
  {
    if keys != [] {
      var rest := keys[1..];
      DistinctTail(keys);
      assert forall k :: k in rest ==> k in keys;
      EachChildRemovedOnce(rest, slots);
      ChildrenOfFirst(keys, slots);
      assert RemovalCalls(keys, slots) == [RemoveChild(slots[keys[0]].child)] + RemovalCalls(rest, slots);
    }
  }

  /** The children under `keys` are the first key's child, which no later key holds, and those of the rest. */
  lemma ChildrenOfFirst(keys: seq<string>, slots: map<string, Slot>)
    requires keys != [] && keys[0] !in keys[1..]
    requires forall k :: k in keys ==> k in slots && slots[k].Live?
    requires forall k, k' :: k in keys && k' in keys && k != k' ==> slots[k].child != slots[k'].child
    ensures forall k :: k in keys[1..] ==> k in keys
    ensures ChildrenOf(keys, slots) == {slots[keys[0]].child} + ChildrenOf(keys[1..], slots)
    ensures slots[keys[0]].child !in ChildrenOf(keys[1..], slots)
  {
    assert forall k :: k in keys <==> k == keys[0] || k in keys[1..];
  }

  /** The same, for a whole table whose every slot holds a child. */
  lemma RemoveCallsEveryChild(t: Table)
    requires t.Valid()
    requires forall k :: k in t.slots ==> t.slots[k].Live?
    ensures |RemovalCalls(t.keys, t.slots)| == |t.slots|
    ensures forall id :: multiset(RemovalCalls(t.keys, t.slots))[RemoveChild(id)] ==
                         if exists k :: k in t.slots && t.slots[k] == Live(id) then 1 else 0
  {
    KeysListed(t);
    forall k, k' | k in t.keys && k' in t.keys && k != k' ensures t.slots[k].child != t.slots[k'].child {
      assert t.owners[t.slots[k].child] == k && t.owners[t.slots[k'].child] == k';
    }
    EachChildRemovedOnce(t.keys, t.slots);
    forall id ensures (id in ChildrenOf(t.keys, t.slots)) <==> exists k :: k in t.slots && t.slots[k] == Live(id) {
      if exists k :: k in t.slots && t.slots[k] == Live(id) {
        var k :| k in t.slots && t.slots[k] == Live(id);
        assert k in t.keys;
      }
    }
  }

  /** In a valid table, the keys of `slots` are exactly those listed in `keys`. */
  lemma KeysListed(t: Table)
    requires t.Valid()
    ensures forall k :: k in t.slots <==> k in t.keys
  {
    var listed := set k | k in t.keys;
    DistinctCard(t.keys);
    assert listed <= t.slots.Keys by {
      forall k | k in listed ensures k in t.slots {
        var i :| 0 <= i < |t.keys| && t.keys[i] == k;
      }
    }
    SubsetSameCard(listed, t.slots.Keys);
  }

  /** A subset as large as its finite superset is the whole superset. */
  lemma SubsetSameCard<T>(a: set<T>, b: set<T>)
    requires a <= b && |a| == |b|
    ensures a == b
  {
    if a != b {
      var x :| x in b && x !in a;
      assert a <= b - {x};
      assert |b - {x}| == |b| - 1;
      SubsetCard(a, b - {x});
    }
  }

  /** A subset is no larger than its superset. */
  lemma {:induction false} SubsetCard<T>(a: set<T>, b: set<T>)
    requires a <= b
    ensures |a| <= |b|
    decreases |a|
  {
    if a != {} {
      var x :| x in a;
      SubsetCard(a - {x}, b - {x});
    }
  }

  /** A sequence of distinct keys has as many elements as its set. */
  lemma {:induction false} DistinctCard(ks: seq<string>)
    requires Distinct(ks)
    ensures |set k | k in ks| == |ks|
    decreases |ks|
  {
    if ks != [] {
      var rest := ks[1..];
      assert Distinct(rest) by {
        forall i, j | 0 <= i < j < |rest| ensures rest[i] != rest[j] {
          assert rest[i] == ks[i + 1] && rest[j] == ks[j + 1];
        }
      }
      DistinctCard(rest);
      assert ks[0] !in rest by {
        forall i | 0 <= i < |rest| ensures rest[i] != ks[0] {
          assert rest[i] == ks[i + 1];
        }
      }
      assert (set k | k in ks) == {ks[0]} + (set k | k in rest) by {
        assert forall k :: k in ks <==> k == ks[0] || k in rest;
      }
    }
  }
}
