/**
 * The layout view itself: a view that owns a table of child views built from
 * its `config`, inserts its rendered template into the page, and renders and
 * removes its children along with itself. The methods change the object in
 * place; each is proved against the value-level functions of `Slots`,
 * `RenderJoin`, `Elements` and `Initialization`.
 */
module Layout {
  import opened JsValues
  import opened Initialization
  import opened Elements
  import opened Slots
  import opened RenderJoin

  /**
   * How the `extractViewConstructor` hook behaves for the entry under a
   * key: it calls back at once with a constructor, or calls back later.
   */
  datatype Resolution = Now(ctor: Value) | Deferred

  /** The hook the view ships with: it calls back at once with the entry's `view`. */
  function DefaultHook(cfg: Config<SlotConfig>): string -> Resolution {
    k => if k in cfg.entries then Now(cfg.entries[k].view) else Deferred
  }

  /** With the shipped hook every entry among `ks` resolves at once. */
  lemma {:induction false} DefaultHookResolvesAll(cfg: Config<SlotConfig>, ks: seq<string>)
    requires forall k :: k in ks ==> k in cfg.entries
    ensures NowCount(ks, DefaultHook(cfg)) == |ks|
    decreases |ks|
  {
    if ks != [] {
      var init := ks[..|ks| - 1];
      assert forall k :: k in init ==> k in ks;
      DefaultHookResolvesAll(cfg, init);
      assert ks[|ks| - 1] in ks;
    }
  }

  /**
   * The common case: with the shipped hook, the check after the loop of
   * `renderConfig` creates the children exactly when there is an entry.
   */
  lemma DefaultHookCreatesAfterLoop(cfg: Config<SlotConfig>, ks: seq<string>)
    requires forall k :: k in ks ==> k in cfg.entries
    ensures LoopEnded(Join(0, NowCount(ks, DefaultHook(cfg)), false), |ks|).createNow <==> ks != []
  {
    DefaultHookResolvesAll(cfg, ks);
  }

  /**
   * With the shipped hook, a first enabled entry whose `view` is not a
   * function (a module name, say) makes the creation pass after the loop
   * throw: `new` of a non-constructor.
   */
  lemma DefaultHookNonConstructorThrows(cfg: Config<SlotConfig>)
    requires cfg.Valid() && cfg.keys != []
    requires !Disabled(cfg.entries[cfg.keys[0]]) && !cfg.entries[cfg.keys[0]].view.Func?
    ensures CreateAll(Table([], map[], [], []), ResolveNow(cfg, DefaultHook(cfg)), cfg.keys, true).outcome
              == Thrown(NotAConstructor(cfg.keys[0]))
  {
    ResolveNowEntries(cfg, DefaultHook(cfg));
  }

  /** `new View({config: {a: "m"}})` throws, since "m" is not a constructor. */
  lemma ModuleNameEntryThrows(cid: nat)
    ensures var cfg := NormalizeConfig(ConfigObject(Config(["a"], map["a" := Bare(Str("m"))])), cid);
            && LoopEnded(Join(0, NowCount(cfg.keys, DefaultHook(cfg)), false), |cfg.keys|).createNow
            && CreateAll(Table([], map[], [], []), ResolveNow(cfg, DefaultHook(cfg)), cfg.keys, true).outcome
                 == Thrown(NotAConstructor("a"))
  {
    var cfg := NormalizeConfig(ConfigObject(Config(["a"], map["a" := Bare(Str("m"))])), cid);
    DefaultHookCreatesAfterLoop(cfg, cfg.keys);
    DefaultHookNonConstructorThrows(cfg);
  }

  /** The number of entries among `ks` whose resolution completes at once. */
  function NowCount(ks: seq<string>, hook: string -> Resolution): (n: nat)
    ensures n <= |ks|
  {
    if ks == [] then 0
    else NowCount(ks[..|ks| - 1], hook) + (if hook(ks[|ks| - 1]).Now? then 1 else 0)
  }

  /** The config once the loop of `renderConfig` has visited its first `n` keys. */
  function ResolveFirst(cfg: Config<SlotConfig>, hook: string -> Resolution, n: nat): (r: Config<SlotConfig>)
    requires n <= |cfg.keys|
    ensures r.keys == cfg.keys && r.entries.Keys == cfg.entries.Keys
  {
    if n == 0 then cfg
    else
      var c := ResolveFirst(cfg, hook, n - 1);
      var k := cfg.keys[n - 1];
      if hook(k).Now? && k in c.entries then SetEntry(c, k, c.entries[k].(ctor := hook(k).ctor)) else c
  }

  /** After `n` keys, an entry carries its new constructor exactly when it is among them and resolved at once. */
  lemma {:induction false} ResolveFirstEntry(cfg: Config<SlotConfig>, hook: string -> Resolution, n: nat, k: string)
    requires n <= |cfg.keys| && k in cfg.entries
    ensures ResolveFirst(cfg, hook, n).entries[k]
              == if k in cfg.keys[..n] && hook(k).Now? then cfg.entries[k].(ctor := hook(k).ctor) else cfg.entries[k]
  {
    if n > 0 {
      ResolveFirstEntry(cfg, hook, n - 1, k);
      assert cfg.keys[..n] == cfg.keys[..n - 1] + [cfg.keys[n - 1]];
    }
  }

  /** The config after the synchronous callbacks of the loop have assigned their constructors. */
  function ResolveNow(cfg: Config<SlotConfig>, hook: string -> Resolution): (r: Config<SlotConfig>)
    ensures r.keys == cfg.keys && r.entries.Keys == cfg.entries.Keys
    ensures cfg.Valid() ==> r.Valid()
  {
    ResolveFirst(cfg, hook, |cfg.keys|)
  }

  /**
   * Exactly the entries whose resolution completed at once carry the
   * constructor they were called back with; every other entry is as it was.
   */
  lemma ResolveNowEntries(cfg: Config<SlotConfig>, hook: string -> Resolution)
    requires cfg.Valid()
    ensures forall k :: k in cfg.entries ==>
              ResolveNow(cfg, hook).entries[k]
                == if hook(k).Now? then cfg.entries[k].(ctor := hook(k).ctor) else cfg.entries[k]
  {
    assert cfg.keys[..|cfg.keys|] == cfg.keys;
    forall k | k in cfg.entries {
      ResolveFirstEntry(cfg, hook, |cfg.keys|, k);
    }
  }

  /** Assigning the constructors resolved at once keeps every entry normalized. */
  lemma ResolveNowKeepsCanonical(cfg: Config<SlotConfig>, hook: string -> Resolution, owner: nat)
    requires cfg.Valid() && AllCanonical(cfg, owner)
    ensures AllCanonical(ResolveNow(cfg, hook), owner)
  {
    var r := ResolveNow(cfg, hook);
    ResolveNowEntries(cfg, hook);
    forall k | k in r.entries ensures Canonical(r.entries[k], owner) {
      assert Canonical(cfg.entries[k], owner);
    }
  }

  /**
   * The loop of `renderConfig`: the hook is asked for every entry in
   * order; each resolution completing at once assigns its constructor and
   * bumps `counterLoaded`, and its check cannot create the children since
   * `counter` is still 0.
   */
  method ResolveAll(cfg: Config<SlotConfig>, hook: string -> Resolution) returns (c: Config<SlotConfig>, loaded: nat)
    requires forall i :: 0 <= i < |cfg.keys| ==> cfg.keys[i] in cfg.entries
    ensures c == ResolveNow(cfg, hook)
    ensures loaded == NowCount(cfg.keys, hook)
  {
    c := cfg;
    loaded := 0;
    var i := 0;
    while i < |c.keys|
      invariant 0 <= i <= |c.keys| && c.keys == cfg.keys && c.entries.Keys == cfg.entries.Keys
      invariant c == ResolveFirst(cfg, hook, i)
      invariant loaded == NowCount(c.keys[..i], hook)
    {
      var k := c.keys[i];
      if hook(k).Now? {
        // the callback's own check sees `counter` still 0 and creates nothing
        loaded := loaded + 1;
        c := SetEntry(c, k, c.entries[k].(ctor := hook(k).ctor));
      }
      assert c.keys[..i + 1][..i] == c.keys[..i];
      i := i + 1;
    }
    assert c.keys[..i] == c.keys;
  }

  /** The value of an option, or the prototype's default when the option is not given. */
  function OptionOr(options: Options, key: string, default: Value): Value {
    if key in options then options[key] else default
  }

  /** The options that land in a property the view itself uses. */
  const OwnProperties: set<string> := {"name", "config", "template", "templateInsertType", "renderOnInitialize", "rendered"}

  const EmptyConfig := ConfigObject(Config([], map[]))

  /**
   * `Slots.RemoveView` on a defined key with a config entry, step by step:
   * the slot is cleared after the child's removal, then `createView` runs on
   * the entry with `renderOnInitialize: false`.
   */
  lemma RemoveViewSteps(t: Table, key: string, e: SlotConfig, rendered: bool)
    requires t.Defined(key)
    ensures var created := Slots.CreateView(Cleared(t, key), key, e.(renderOnInitialize := Bool(false)), rendered);
            Slots.RemoveView(t, key, Some(e), rendered)
               == if created.outcome.Thrown? then created
                  else Step(created.table.(slots := created.table.slots[key := created.outcome.value]), created.outcome)
  {
  }

  /**
   * A child that `removeView` builds anew from a normalized entry gets
   * options saying `renderOnInitialize: false` and naming the layout that
   * owns the entry.
   */
  lemma RecreatedChildOptions(t: Table, key: string, e: SlotConfig, rendered: bool, owner: nat)
    requires t.Defined(key) && Canonical(e, owner)
    ensures var s := Slots.RemoveView(t, key, Some(e), rendered);
            s.outcome.Done? && s.outcome.value.Live? ==>
              && |s.table.calls| > |t.calls| + 1
              && s.table.calls[|t.calls| + 1].Construct?
              && s.table.calls[|t.calls| + 1].options.Some?
              && s.table.calls[|t.calls| + 1].options.value["renderOnInitialize"] == Bool(false)
              && s.table.calls[|t.calls| + 1].options.value["layout"] == ViewRef(owner)
  {
    RemoveViewOutcome(t, key, Some(e), rendered);
  }

  /** The properties `new View(options)` leaves on the instance before `initialize` runs. */
  datatype Properties = Properties(
    name: Value,
    template: Value,
    templateInsertType: Value,
    renderOnInitialize: Value,
    config: Value,
    rendered: Value,
    otherOptions: map<string, Value>)

  /**
   * The properties after the first phase of the constructor: the defaulted
   * name and the defaults of `View.prototype`, each overridden by the option
   * of the same name; `on` is never copied. Only the name reads a
   * subclass's prototype, through `protoName`.
   */
  function Copied(options: Options, protoName: string, constructorName: string): Properties {
    Properties(
      OptionOr(options, "name", Str(DefaultName(protoName, constructorName))),
      OptionOr(options, "template", Null),
      OptionOr(options, "templateInsertType", Str(InsertReplace)),
      OptionOr(options, "renderOnInitialize", Bool(true)),
      OptionOr(options, "config", EmptyConfig),
      OptionOr(options, "rendered", Bool(false)),
      map k | k in options && k != "on" && k !in OwnProperties :: options[k])
  }

  /**
   * `on` is never copied; every other option lands either in a property of
   * its own, overriding the default, or among the other options, with its
   * value.
   */
  lemma CopiedOptions(options: Options, protoName: string, constructorName: string)
    ensures var p := Copied(options, protoName, constructorName);
            && "on" !in p.otherOptions
            && (forall k :: k in p.otherOptions <==> k in options && k != "on" && k !in OwnProperties)
            && (forall k :: k in p.otherOptions ==> p.otherOptions[k] == options[k])
            && ("name" in options ==> p.name == options["name"])
            && ("name" !in options ==> p.name == Str(DefaultName(protoName, constructorName)))
            && ("template" in options ==> p.template == options["template"])
            && ("template" !in options ==> p.template == Null)
            && ("templateInsertType" in options ==> p.templateInsertType == options["templateInsertType"])
            && ("templateInsertType" !in options ==> p.templateInsertType == Str(InsertReplace))
            && ("renderOnInitialize" in options ==> p.renderOnInitialize == options["renderOnInitialize"])
            && ("renderOnInitialize" !in options ==> p.renderOnInitialize == Bool(true))
            && ("config" in options ==> p.config == options["config"])
            && ("config" !in options ==> p.config == EmptyConfig)
            && ("rendered" in options ==> p.rendered == options["rendered"])
            && ("rendered" !in options ==> p.rendered == Bool(false))
  {
  }

  /**
   * The first phase of the constructor: the name is defaulted, then the
   * loop copies every option but `on` onto the instance, over the
   * prototype's defaults.
   */
  method CopyOptions(options: Options, protoName: string, constructorName: string) returns (p: Properties)
    ensures p == Copied(options, protoName, constructorName)
  {
    var own: Options := map[];
    var remaining := options.Keys;
    while remaining != {}
      invariant remaining <= options.Keys
      invariant forall k :: k in own <==> k in options && k !in remaining && k != "on"
      invariant forall k :: k in own ==> own[k] == options[k]
      decreases remaining
    {
      var k :| k in remaining;
      if k != "on" {
        own := own[k := options[k]];
      }
      remaining := remaining - {k};
    }
    p := Properties(
      OptionOr(own, "name", Str(DefaultName(protoName, constructorName))),
      OptionOr(own, "template", Null),
      OptionOr(own, "templateInsertType", Str(InsertReplace)),
      OptionOr(own, "renderOnInitialize", Bool(true)),
      OptionOr(own, "config", EmptyConfig),
      OptionOr(own, "rendered", Bool(false)),
      map k | k in own && k !in OwnProperties :: own[k]);
  }

  /**
   * `new View(options)`: the properties are copied (`LayoutView.Create`),
   * then `initialize` normalizes `config` and renders the view when
   * `renderOnInitialize === true`. A `Thrown` outcome `r` means that render
   * threw, so the source's `new View(options)` throws and the caller gets
   * no view. `container` is the content of the
   * element the view is given; `evaluate` and `hook` stand for the
   * template evaluation and the constructor resolution of that render.
   */
  method NewLayoutView(cid: nat, protoName: string, constructorName: string, options: Options, container: string,
                       evaluate: TemplateFn -> string, hook: string -> Resolution) returns (v: LayoutView, r: Outcome<()>)
    requires "config" in options && options["config"].ConfigObject? ==> options["config"].config.Valid()
    requires RendersEmptySource(evaluate)
    ensures fresh(v) && v.Valid()
    ensures v.cid == cid
    ensures var p := Copied(options, protoName, constructorName);
            Properties(v.name, v.template, v.templateInsertType, v.renderOnInitialize, p.config, p.rendered, v.otherOptions) == p
    ensures var p := Copied(options, protoName, constructorName);
            var normalized := NormalizeConfig(p.config, cid);
            && (v.renderOnInitialize == Bool(true) ==>
                  v.AfterRender(normalized, Table([], map[], [], []), Initial(container), [], evaluate, hook, r))
            && (v.renderOnInitialize != Bool(true) ==>
                  && r == Done(()) && v.config == normalized && v.rendered == (p.rendered == Bool(true)) && v.passes == []
                  && v.views == Table([], map[], [], []) && v.dom == Initial(container))
  {
    v := new LayoutView.Create(cid, protoName, constructorName, options, container);
    r := v.Initialize(Copied(options, protoName, constructorName).config, evaluate, hook);
  }

  class LayoutView {
    /** Backbone's client id; children get it as their `layout` option. */
    const cid: nat
    var name: Value
    /** Every other option copied onto the instance. */
    var otherOptions: map<string, Value>
    var template: Value
    var templateInsertType: Value
    var renderOnInitialize: Value
    var config: Config<SlotConfig>
    /** `views`, with its keys in enumeration order, the next child handle and the calls made on children. */
    var views: Table
    /** `this.rendered === true`, the only test the view makes of it. */
    var rendered: bool
    var dom: Dom
    /** The counters of every `renderConfig` call, which its late callbacks still update. */
    var passes: seq<Join>

    /** The invariant every public operation keeps. */
    ghost predicate Valid()
      reads this
    {
      views.Valid() && ConfigValid() && dom.Valid()
    }

    ghost predicate ConfigValid()
      reads this`config
    {
      config.Valid() && AllCanonical(config, cid)
    }

    /**
     * The state `render()` leaves, from `config0`, `views0`, `dom0` and
     * `passes0`: the view is rendered; the page is the old one, or the
     * template inserted into it when the markup is not empty; the
     * constructors resolved at once are assigned; one more pass is recorded;
     * and the children were created after the loop exactly when that pass
     * fired then, with `r` the outcome of that creation pass.
     */
    ghost predicate AfterRender(config0: Config<SlotConfig>, views0: Table, dom0: Dom, passes0: seq<Join>,
                                evaluate: TemplateFn -> string, hook: string -> Resolution, r: Outcome<()>)
      reads this
    {
      var html := GetTemplateAsHtmlForRender(Undefined, template, evaluate).value;
      var ended := LoopEnded(Join(0, NowCount(config.keys, hook), false), |config.keys|);
      && rendered
      && config == ResolveNow(config0, hook)
      && (dom0.Valid() ==> dom == if html == "" then dom0 else InsertTemplate(dom0, templateInsertType, html))
      && passes == passes0 + [ended.join]
      && (ended.createNow ==> (config0.Valid() ==> CreateAll(views0, config, config.keys, true) == Step(views, r)))
      && (!ended.createNow ==> views == views0 && r == Done(()))
    }

    /**
     * The first half of `new View(options)`: the name defaults from the
     * prototype and the constructor, every option except `on` is copied
     * onto the instance, and the instance starts with no children over the
     * element content `container`, rendered only when an option `rendered`
     * says `true`.
     */
    constructor Create(cid: nat, protoName: string, constructorName: string, options: Options, container: string)
      ensures this.cid == cid
      ensures var p := Copied(options, protoName, constructorName);
              && Properties(name, template, templateInsertType, renderOnInitialize, p.config, p.rendered, otherOptions) == p
              && rendered == (p.rendered == Bool(true))
      ensures views == Table([], map[], [], []) && views.Valid() && dom == Initial(container) && dom.Valid()
      ensures passes == []
    {
      var p := CopyOptions(options, protoName, constructorName);
      this.cid := cid;
      name, template, templateInsertType := p.name, p.template, p.templateInsertType;
      renderOnInitialize, otherOptions := p.renderOnInitialize, p.otherOptions;
      views := Table([], map[], [], []);
      rendered := p.rendered == Bool(true);
      dom := Initial(container);
      passes := [];
      config := Config([], map[]);
    }

    /**
     * `initialize()`: every entry of the raw `config` is normalized, then
     * the view renders itself when `renderOnInitialize === true`; an
     * exception of that render leaves `initialize`, as the outcome `r`.
     */
    method Initialize(raw: Value, evaluate: TemplateFn -> string, hook: string -> Resolution) returns (r: Outcome<()>)
      requires raw.ConfigObject? ==> raw.config.Valid()
      requires RendersEmptySource(evaluate)
      requires views.Valid() && dom.Valid()
      modifies this`rendered, this`dom, this`config, this`passes, this`views
      ensures Valid()
      ensures renderOnInitialize == Bool(true) ==>
                AfterRender(NormalizeConfig(raw, cid), old(views), old(dom), old(passes), evaluate, hook, r)
      ensures renderOnInitialize != Bool(true) ==>
                && r == Done(()) && config == NormalizeConfig(raw, cid)
                && rendered == old(rendered) && passes == old(passes) && views == old(views) && dom == old(dom)
    {
      config := NormalizeConfig(raw, cid);
      if renderOnInitialize == Bool(true) {
        var _, thrown := Render(evaluate, hook);
        return thrown;
      }
      return Done(());
    }

    /** `createView(key, config)`, as `Slots.CreateView` says. */
    method CreateView(key: string, c: SlotConfig) returns (r: Outcome<Slot>)
      requires views.Valid()
      modifies this`views
      ensures views.Valid()
      ensures var s := Slots.CreateView(old(views), key, c, rendered);
              views == s.table && r == s.outcome
    {
      if views.Defined(key) {
        return Thrown(DuplicateKey(key));
      }
      if Disabled(c) {
        return Done(Vacant);
      }
      if !c.ctor.Func? {
        return Thrown(NotAConstructor(key));
      }
      ghost var t := views;
      var id := |views.owners|;
      var keys := if key in views.slots then views.keys else InsertKey(views.keys, key);
      views := Table(keys, views.slots[key := Live(id)], views.owners + [key],
                     views.calls + [Construct(key, id, c.ctor.id, c.options)]);
      assert views.Valid() by {
        CreateViewKeepsValid(t, key, c, false);
        assert Slots.CreateView(t, key, c, false).table == views;
      }
      if RendersAtCreation(c, rendered) {
        var _ := RenderView(key);
      }
      return Done(Live(id));
    }

    /** `renderView(key)`, as `Slots.RenderView` says. */
    method RenderView(key: string) returns (r: Outcome<()>)
      requires views.Valid()
      modifies this`views
      ensures views.Valid()
      ensures var s := Slots.RenderView(old(views), key);
              views == s.table && r == s.outcome
    {
      if !views.Defined(key) {
        return Thrown(UnknownKey(key));
      }
      views := views.(calls := views.calls + [RenderChild(views.slots[key].child)]);
      return Done(());
    }

    /**
     * `removeView(key)`, as `Slots.RemoveView` says; the config entry gets
     * `renderOnInitialize: false`, and a new child is built with options
     * that say `renderOnInitialize: false` and name this view as its layout.
     */
    method RemoveView(key: string) returns (r: Outcome<Slot>)
      requires Valid()
      modifies this`views, this`config
      ensures Valid()
      ensures var entry := if key in old(config.entries) then Some(old(config.entries[key])) else None;
              var s := Slots.RemoveView(old(views), key, entry, rendered);
              views == s.table && r == s.outcome
      ensures config == if old(views.Defined(key)) && key in old(config.entries)
                        then SetEntry(old(config), key, old(config.entries[key]).(renderOnInitialize := Bool(false)))
                        else old(config)
    {
      ghost var t := views;
      if !views.Defined(key) {
        return Thrown(UnknownKey(key));
      }
      ClearSlot(key);
      if key !in config.entries {
        return Thrown(MissingConfig(key));
      }
      ghost var e := config.entries[key];
      RemoveViewSteps(t, key, e, rendered);
      r := Recreate(key);
    }

    /** The first half of `removeView`: the child under `key` is removed and the slot cleared. */
    method ClearSlot(key: string)
      requires views.Valid() && views.Defined(key)
      modifies this`views
      ensures views.Valid()
      ensures views == Cleared(old(views), key)
    {
      var removed := views.calls + [RemoveChild(views.slots[key].child)];
      views := views.(slots := views.slots[key := Vacant], calls := removed);
    }

    /**
     * The second half of `removeView`: the entry gets `renderOnInitialize:
     * false`, and the slot holds whatever `createView` makes from it.
     */
    method Recreate(key: string) returns (r: Outcome<Slot>)
      requires views.Valid() && ConfigValid() && key in config.entries && key in views.slots
      modifies this`views, this`config
      ensures views.Valid() && ConfigValid()
      ensures config == SetEntry(old(config), key, old(config.entries[key]).(renderOnInitialize := Bool(false)))
      ensures var created := Slots.CreateView(old(views), key, config.entries[key], rendered);
              && r == created.outcome
              && views == if r.Thrown? then created.table
                          else created.table.(slots := created.table.slots[key := r.value])
    {
      var entry := config.entries[key].(renderOnInitialize := Bool(false));
      assert Canonical(config.entries[key], cid);
      SetEntryKeepsCanonical(config, key, entry, cid);
      config := SetEntry(config, key, entry);
      r := CreateView(key, entry);
      if r.Thrown? {
        return;
      }
      assert views.slots[key := r.value] == views.slots;
      views := views.(slots := views.slots[key := r.value]);
    }

    /** `render()`: the template is inserted, then the children are set up. */
    method Render(evaluate: TemplateFn -> string, hook: string -> Resolution) returns (p: nat, r: Outcome<()>)
      requires Valid()
      requires RendersEmptySource(evaluate)
      modifies this`rendered, this`dom, this`config, this`passes, this`views
      ensures Valid()
      ensures AfterRender(old(config), old(views), old(dom), old(passes), evaluate, hook, r)
      ensures p == |old(passes)|
      ensures !Truthy(template) ==> dom == old(dom)
    {
      RenderInsert(evaluate);
      p, r := RenderConfig(hook);
    }

    /**
     * `renderInsert()`: `rendered` becomes true first; empty markup leaves
     * the page alone (a falsy template, the default `null`, compiles to the
     * empty source and renders it); otherwise the markup is placed as
     * `templateInsertType` says.
     */
    method RenderInsert(evaluate: TemplateFn -> string)
      requires dom.Valid()
      requires RendersEmptySource(evaluate)
      modifies this`rendered, this`dom
      ensures dom.Valid() && rendered
      ensures !Truthy(template) ==> dom == old(dom)
      ensures var html := GetTemplateAsHtmlForRender(Undefined, template, evaluate).value;
              dom == if html == "" then old(dom) else InsertTemplate(old(dom), templateInsertType, html)
    {
      rendered := true;
      var html := GetTemplateAsHtmlForRender(Undefined, template, evaluate).value;
      if html == "" {
        return;
      }
      dom := InsertTemplate(dom, templateInsertType, html);
    }

    /**
     * `renderConfig()`: the loop asks the hook to resolve the constructor of
     * every entry in order; resolutions completing at once assign their
     * constructor but cannot create the children, because `counter` is
     * still 0. After the loop `counter` holds the number of entries, and the
     * children are created here if every resolution has completed already;
     * otherwise the last late callback (`Resolve`) creates them.
     */
    method RenderConfig(hook: string -> Resolution) returns (p: nat, r: Outcome<()>)
      requires views.Valid() && ConfigValid()
      modifies this`config, this`passes, this`views
      ensures views.Valid() && ConfigValid()
      ensures config == ResolveNow(old(config), hook)
      ensures p == |old(passes)|
      ensures var ended := LoopEnded(Join(0, NowCount(config.keys, hook), false), |config.keys|);
              && passes == old(passes) + [ended.join]
              && (ended.createNow ==> Step(views, r) == CreateAll(old(views), config, config.keys, rendered))
              && (!ended.createNow ==> views == old(views) && r == Done(()))
    {
      ResolveNowKeepsCanonical(config, hook, cid);
      var loaded;
      config, loaded := ResolveAll(config, hook);
      var n := |config.keys|;
      passes := passes + [Join(n, loaded, false)];
      p := |passes| - 1;
      if n > 0 && n == loaded {
        r := CreateConfiguredViews();
      } else {
        r := Done(());
      }
    }

    /**
     * The late completion callback of pass `p` for the entry under `key`:
     * it assigns the constructor, bumps `counterLoaded`, and creates the
     * children when this was the last resolution and they were not created
     * yet.
     */
    method Resolve(p: nat, key: string, ctor: Value) returns (r: Outcome<()>)
      requires Valid() && p < |passes| && key in config.entries
      modifies this`config, this`passes, this`views
      ensures Valid()
      ensures config == SetEntry(old(config), key, old(config.entries[key]).(ctor := ctor))
      ensures var reaction := Resolved(old(passes[p]));
              && passes == old(passes)[p := reaction.join]
              && (reaction.createNow ==> Step(views, r) == CreateAll(old(views), config, config.keys, rendered))
              && (!reaction.createNow ==> views == old(views) && r == Done(()))
    {
      AssignConstructor(key, ctor);
      var createNow := Completed(p);
      if createNow {
        r := CreateConfiguredViews();
      } else {
        r := Done(());
      }
      assert dom == old(dom);
    }

    /**
     * The counters of pass `p` on a completion: `counterLoaded` goes up,
     * and the children are due when it meets `counter` and they were not
     * created by this pass yet.
     */
    method Completed(p: nat) returns (createNow: bool)
      requires p < |passes|
      modifies this`passes
      ensures var reaction := Resolved(old(passes[p]));
              passes == old(passes)[p := reaction.join] && createNow == reaction.createNow
    {
      var j := passes[p];
      var loaded := j.loaded + 1;
      createNow := j.counter > 0 && j.counter == loaded && !j.fired;
      passes := passes[p := Join(j.counter, loaded, j.fired || createNow)];
    }

    /** `self.config[key].constructor = constructor` in a completion callback. */
    method AssignConstructor(key: string, ctor: Value)
      requires ConfigValid() && key in config.entries
      modifies this`config
      ensures ConfigValid()
      ensures config == SetEntry(old(config), key, old(config.entries[key]).(ctor := ctor))
    {
      assert Canonical(config.entries[key], cid);
      SetEntryKeepsCanonical(config, key, config.entries[key].(ctor := ctor), cid);
      config := SetEntry(config, key, config.entries[key].(ctor := ctor));
    }

    /** The creation pass: `createView` for every config entry in order, stopping at the first error. */
    method CreateConfiguredViews() returns (r: Outcome<()>)
      requires views.Valid() && ConfigValid()
      modifies this`views
      ensures views.Valid()
      ensures Step(views, r) == CreateAll(old(views), config, config.keys, rendered)
    {
      var i := 0;
      while i < |config.keys|
        invariant 0 <= i <= |config.keys|
        invariant views.Valid()
        invariant CreateAll(views, config, config.keys[i..], rendered) == CreateAll(old(views), config, config.keys, rendered)
      {
        var k := config.keys[i];
        assert config.keys[i..][1..] == config.keys[i + 1..];
        var created := CreateView(k, config.entries[k]);
        if created.Thrown? {
          return Thrown(created.error);
        }
        i := i + 1;
      }
      return Done(());
    }

    /**
     * `remove()`: `remove()` on every child in the enumeration order of
     * `views`, `views` emptied, then the element teardown. Every slot must
     * hold a child: an undefined slot (left by `removeView` on a disabled
     * entry) would make the call on it fail.
     */
    method Remove()
      requires Valid()
      requires forall k :: k in views.slots ==> views.slots[k].Live?
      modifies this`views, this`rendered, this`dom
      ensures Valid()
      ensures views.calls == old(views.calls) + RemovalCalls(old(views.keys), old(views.slots))
      ensures views.keys == [] && views.slots == map[] && views.owners == old(views.owners)
      ensures !rendered
      ensures dom == Elements.RemoveElementFromDom(old(dom), templateInsertType)
    {
      RemoveChildren();
      views := views.(keys := [], slots := map[]);
      RemoveElement();
    }

    /** The loop of `remove()`: `remove()` on the child under each key, in the order of the keys. */
    method RemoveChildren()
      requires forall k :: k in views.keys ==> k in views.slots && views.slots[k].Live?
      modifies this`views
      ensures views == old(views).(calls := old(views.calls) + RemovalCalls(old(views.keys), old(views.slots)))
    {
      var ks, vs := views.keys, views.slots;
      ghost var removed := RemovalCalls(ks, vs);
      var i := 0;
      while i < |ks|
        invariant 0 <= i <= |ks|
        invariant views == old(views).(calls := old(views.calls) + removed[..i])
      {
        views := views.(calls := views.calls + [RemoveChild(vs[ks[i]].child)]);
        assert removed[..i + 1] == removed[..i] + [removed[i]];
        i := i + 1;
      }
      assert removed[..i] == removed;
    }

    /** `_removeElement()`: `rendered` becomes false and the element is torn down. */
    method RemoveElement()
      requires dom.Valid()
      modifies this`rendered, this`dom
      ensures !rendered
      ensures dom == Elements.RemoveElementFromDom(old(dom), templateInsertType)
    {
      rendered := false;
      RemoveElementFromDom();
    }

    /** `removeElementFromDom()`, as `Elements.RemoveElementFromDom` says. */
    method RemoveElementFromDom()
      requires dom.Valid()
      modifies this`dom
      ensures dom == Elements.RemoveElementFromDom(old(dom), templateInsertType)
    {
      dom := Elements.RemoveElementFromDom(dom, templateInsertType);
    }
  }
}
