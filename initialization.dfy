/**
 * The expression-style parts of constructing and initializing a layout view:
 * the default name, the per-entry normalization of `config`, and the choice
 * of the template function.
 */
module Initialization {
  import opened JsValues

  const AnonymousName := "AnonymousView"

  /**
   * The name a view starts with, before options are copied: the name on its
   * prototype, else its constructor's name, else "AnonymousView"; the base
   * class's own name "View" is replaced by "AnonymousView" too. An empty
   * string stands for an absent (falsy) name.
   */
  function DefaultName(protoName: string, constructorName: string): (name: string)
    ensures name != "" && name != "View"
    ensures protoName != "" && protoName != "View" ==> name == protoName
    ensures protoName == "" && constructorName != "" && constructorName != "View" ==> name == constructorName
    ensures (protoName == "View" || (protoName == "" && (constructorName == "" || constructorName == "View")))
            ==> name == AnonymousName
    ensures name != AnonymousName ==> name == protoName || name == constructorName
  {
    var chosen := if protoName != "" then protoName
                  else if constructorName != "" then constructorName
                  else AnonymousName;
    if chosen == "View" then AnonymousName else chosen
  }

  /** The options every child is given on top of its own: no self-rendering, and its layout. */
  function ForcedOptions(options: Options, owner: nat): Options {
    options["renderOnInitialize" := Bool(false)]["layout" := ViewRef(owner)]
  }

  /**
   * The properties of a raw entry before normalization. A bare entry that is
   * not an object has only `view`; `null` (which `lodash.defaults` turns
   * into a fresh object) and other object values are objects without slot
   * properties.
   */
  function AsObject(e: RawEntry): SlotConfig {
    match e
    case Bare(v) =>
      if IsObject(v) then SlotConfig(Undefined, Undefined, Undefined, None, Undefined, Undefined)
      else SlotConfig(v, Undefined, Undefined, None, Undefined, Undefined)
    case Entry(c) => c
  }

  /** A normalized entry: `enabled` is set and the options carry the forced values for `owner`. */
  ghost predicate Canonical(c: SlotConfig, owner: nat) {
    && c.enabled != Undefined
    && c.options.Some?
    && "renderOnInitialize" in c.options.value && c.options.value["renderOnInitialize"] == Bool(false)
    && "layout" in c.options.value && c.options.value["layout"] == ViewRef(owner)
  }

  /** Every entry of `cfg` is normalized for `owner`. */
  ghost predicate AllCanonical(cfg: Config<SlotConfig>, owner: nat) {
    forall k {:trigger Canonical(cfg.entries[k], owner)} :: k in cfg.entries ==> Canonical(cfg.entries[k], owner)
  }

  /** `config[key] = c` on an existing key: the order of the keys and the other entries stay. */
  function SetEntry(cfg: Config<SlotConfig>, key: string, c: SlotConfig): (r: Config<SlotConfig>)
    requires key in cfg.entries
    ensures r.keys == cfg.keys && r.entries.Keys == cfg.entries.Keys
  {
    Config(cfg.keys, cfg.entries[key := c])
  }

  /** Replacing an entry by a normalized one keeps every entry normalized. */
  lemma SetEntryKeepsCanonical(cfg: Config<SlotConfig>, key: string, c: SlotConfig, owner: nat)
    requires key in cfg.entries && AllCanonical(cfg, owner) && Canonical(c, owner)
    ensures AllCanonical(SetEntry(cfg, key, c), owner)
  {
    var r := SetEntry(cfg, key, c);
    forall k | k in r.entries ensures Canonical(r.entries[k], owner) {
      if k != key {
        assert Canonical(cfg.entries[k], owner);
      }
    }
  }

  /**
   * Normalization of one `config` entry at initialization: an entry whose
   * `typeof` is not "object" becomes `{view: entry}`, an absent `enabled`
   * becomes true, and the options get `renderOnInitialize: false` and
   * `layout: owner` forced on top of whatever the caller gave, every other
   * option key being kept.
   */
  function NormalizeEntry(e: RawEntry, owner: nat): (c: SlotConfig)
    ensures Canonical(c, owner)
    ensures e.Bare? && !IsObject(e.value) ==> c.view == e.value
    ensures e.Bare? && IsObject(e.value) ==> c.view == Undefined
    ensures e.Bare? ==> c.render == Undefined && c.ctor == Undefined
    ensures e.Entry? ==> c.view == e.slot.view && c.render == e.slot.render && c.ctor == e.slot.ctor
                         && c.renderOnInitialize == e.slot.renderOnInitialize
    ensures AsObject(e).enabled == Undefined ==> c.enabled == Bool(true)
    ensures AsObject(e).enabled != Undefined ==> c.enabled == AsObject(e).enabled
    ensures var given := if AsObject(e).options.Some? then AsObject(e).options.value else map[];
            && c.options.value.Keys == given.Keys + {"renderOnInitialize", "layout"}
            && forall k :: k in given && k != "renderOnInitialize" && k != "layout" ==> c.options.value[k] == given[k]
  {
    var obj := AsObject(e);
    var withDefaults := if obj.enabled == Undefined then obj.(enabled := Bool(true)) else obj;
    var given := if obj.options.Some? then obj.options.value else map[];
    withDefaults.(options := Some(ForcedOptions(given, owner)))
  }

  /** Normalizing an already normalized entry of the same owner changes nothing. */
  lemma NormalizeEntryIdempotent(c: SlotConfig, owner: nat)
    requires Canonical(c, owner)
    ensures NormalizeEntry(Entry(c), owner) == c
  {
    var o := c.options.value;
    assert ForcedOptions(o, owner) == o;
  }

  /**
   * `this.config = lodash.mapValues(this.config, …)`: the configured slots in
   * their original order, each entry normalized. A null or undefined `config`
   * gives no slots.
   */
  function NormalizeConfig(raw: Value, owner: nat): (c: Config<SlotConfig>)
    requires raw.ConfigObject? ==> raw.config.Valid()
    ensures c.Valid()
    ensures raw.ConfigObject? ==> c.keys == raw.config.keys
    ensures !raw.ConfigObject? ==> c.keys == []
    ensures AllCanonical(c, owner)
    ensures raw.ConfigObject? ==>
              forall k :: k in raw.config.entries ==> c.entries[k] == NormalizeEntry(raw.config.entries[k], owner)
  {
    match raw
    case ConfigObject(rc) =>
      Config(rc.keys, map k | k in rc.entries :: NormalizeEntry(rc.entries[k], owner))
    case _ => Config([], map[])
  }

  /** What `getTemplate` returns: the function given, or what `lodash.template` compiles from a source string. */
  datatype TemplateFn = Given(id: nat) | Compiled(source: string)

  /** `lodash.template` converts a non-string source with `toString`. */
  function SourceText(v: Value): string {
    match v
    case Str(s) => s
    case Bool(b) => if b then "true" else "false"
    case Undefined => ""
    case Null => ""
    case _ => "[object Object]"
  }

  /**
   * `getTemplate(template)`: the argument unless it is undefined, else the
   * view's own template; a falsy template counts as the empty string; a
   * function is used as is, anything else is compiled.
   */
  function GetTemplate(arg: Value, own: Value): (t: TemplateFn)
    ensures arg.Func? ==> t == Given(arg.id)
    ensures arg == Undefined && own.Func? ==> t == Given(own.id)
    ensures var chosen := if arg != Undefined then arg else own;
            && (!Truthy(chosen) ==> t == Compiled(""))
            && (chosen.Str? ==> t == Compiled(chosen.s))
    ensures t.Given? ==> arg.Func? || (arg == Undefined && own.Func?)
  {
    var chosen := if arg != Undefined then arg else own;
    var nonEmpty := if Truthy(chosen) then chosen else Str("");
    if nonEmpty.Func? then Given(nonEmpty.id) else Compiled(SourceText(nonEmpty))
  }

  /**
   * What every template evaluation in this model assumes of `lodash.template`:
   * the template compiled from the empty source renders the empty string.
   */
  predicate RendersEmptySource(evaluate: TemplateFn -> string) {
    evaluate(Compiled("")) == ""
  }

  /** A view whose template is falsy (the prototype's `null`, say) renders no markup. */
  lemma FalsyTemplateRendersNothing(own: Value, evaluate: TemplateFn -> string)
    requires RendersEmptySource(evaluate) && !Truthy(own)
    ensures GetTemplateAsHtmlForRender(Undefined, own, evaluate) == Some("")
  {
  }

  /**
   * `getTemplateAsHtmlForRender(template)`: null for an explicit null
   * argument, otherwise the chosen template function applied to the render
   * data; `evaluate` stands for that application.
   */
  function GetTemplateAsHtmlForRender(arg: Value, own: Value, evaluate: TemplateFn -> string): (html: Option<string>)
    ensures html.None? <==> arg == Null
    ensures arg != Null ==> html == Some(evaluate(GetTemplate(arg, own)))
  {
    if arg == Null then None else Some(evaluate(GetTemplate(arg, own)))
  }
}
