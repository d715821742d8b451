# Layout view model

A Dafny model of the layout view of `js-backbone-view` (`view.js`): a
Backbone view that owns a `config` of child-view slots, inserts its rendered
template into the page by one of five insert types, creates its children
once every child constructor has been resolved, and renders and removes
them along with itself.

The project has one file per part of the view:

- `values.dfy` (module `JsValues`): the JavaScript values the view reads
  and writes, ordered plain objects (`Config`), and slot configurations.
- `initialization.dfy` (module `Initialization`): the default name, the
  normalization of `config` entries in `initialize`, and `getTemplate` /
  `getTemplateAsHtmlForRender`. All of these are pure functions.
- `elements.dfy` (module `Elements`): an abstraction of the page.
  - Elements are numbered in creation order and placed against earlier
    elements.
  - An element is in the document while it and its anchors are attached.
  - Covers what `renderInsert` and `removeElementFromDom` do to it.
- `slots.dfy` (module `Slots`): the child table `views` as a value.
  - Covers what `createView`, `renderView` and `removeView`, the creation
    pass of `renderConfig`, and the loop of `remove` do to it.
  - Child views are handles, and every call made on a child is logged.
  - The keys of `views` are kept in JavaScript's enumeration order: array
    indices first, in ascending order, then the other keys in creation
    order.
- `join.dfy` (module `RenderJoin`): the counters `counter`,
  `counterLoaded` and `viewsRendered` that one `renderConfig` call shares
  with its resolution callbacks. It also proves when they create the
  children.
- `layout.dfy` (module `Layout`): the class `LayoutView`.
  - Its fields are the properties the source updates in place (`config`,
    `views`, `rendered`, the element, the render passes).
  - Each method is proved against the functions of the modules above.
  - The module also holds the option copying of the constructor and
    `NewLayoutView`, which stands for `new View(options)`.

Two behaviours of the code are modelled as written.

- A second render of a layout with an enabled slot throws a duplicate-key
  error from `createView`. `Slots.RenderTwiceThrows` proves this.
- `removeView` on a slot whose entry is disabled stores `undefined` under
  the key, so a later `remove()` would call `remove()` on `undefined`.
  `Layout.LayoutView.Remove` therefore requires every slot to hold a child.

Two more details follow the code rather than what the view's intent would suggest:

- `renderInsert` sets `rendered` to true before anything is inserted, and
  also when the markup is empty.
- `removeView` builds a new child only when the entry is enabled.
  Otherwise it leaves `undefined` under the key.

## Model

| member | source | states |
|---|---|---|
| Initialization.DefaultName | view.js:23-26 | The name is never empty and never "View". The prototype's name wins, then the constructor's name, then "AnonymousView". A prototype named "View", or no usable name at all, gives "AnonymousView". Any other result is one of the two given names. |
| Layout.CopyOptions | view.js:31-40 | The copy loop yields exactly `Copied`: every option except `on`, over the prototype defaults and the defaulted name. |
| Layout.CopiedOptions | view.js:28-40 | `on` is never copied. Each of `name`, `template`, `templateInsertType`, `renderOnInitialize`, `config` and `rendered` given as an option overrides its property. Every other option lands among the other options with its value. Missing ones keep the defaults: the defaulted name, `null` template, "replace", `renderOnInitialize: true`, an empty config and `rendered: false`. |
| Layout.LayoutView.Create | view.js:22-40 | The instance holds the copied properties. It is rendered exactly when the options say `rendered: true`. It has no children, and its element is the given container. |
| Layout.NewLayoutView | view.js:22-45 | `new View(options)` gives a valid view with the copied properties. When `renderOnInitialize === true`, the view is in the state `render()` leaves from the normalized config, the empty table and the given container, with one pass recorded, and the outcome is that render's: a throw of the creation pass means `new View(options)` throws. Otherwise it holds the normalized config, nothing else has changed, and nothing is thrown. |
| Layout.LayoutView.Initialize | view.js:252-289 | When `renderOnInitialize === true`, the view is in the state `render()` leaves from the normalized raw config, and the outcome is that render's, which escapes `initialize`. Otherwise `config` becomes the normalized raw config, nothing else changes, and nothing is thrown. |
| Initialization.NormalizeEntry | view.js:258-278 | An entry whose `typeof` is not "object" becomes `{view: entry}`, and `null` becomes an empty object. `enabled` defaults to true. The options keep every given key and get `renderOnInitialize: false` and `layout: owner`. The other properties are kept. |
| Initialization.NormalizeEntryIdempotent | view.js:256-279 | Normalizing an already normalized entry for the same owner changes nothing. |
| Initialization.NormalizeConfig | view.js:256-279 | The keys keep their order and every entry is normalized. A missing config gives no slots. |
| Initialization.SetEntryKeepsCanonical | view.js:398 | Assigning a normalized entry to a config key keeps every entry normalized. |
| Initialization.GetTemplate | view.js:209-218 | The argument is used unless it is undefined, else the view's template. A falsy template compiles as "". A function is returned as is, and a string is compiled. |
| Initialization.GetTemplateAsHtmlForRender | view.js:226-233 | Null exactly for a null argument. Otherwise it is the chosen template applied to the render data. |
| Elements.InsertTemplate | view.js:433-461 | Inserting markup keeps the page well formed. |
| Elements.InsertTemplateOutcome | view.js:433-461 | "append", "prepend", "before" and "after" add one attached element with the markup, placed as named against the old root, and make it the root. Every other type sets the root's content. The root is in the document exactly when the old root was. |
| Layout.LayoutView.RenderInsert | view.js:423-464 | `rendered` becomes true. Empty markup leaves the page alone, and so does a falsy template such as the default `null`. Otherwise the page is `InsertTemplate` of the old page. |
| Initialization.FalsyTemplateRendersNothing | view.js:209-233 | A falsy own template compiles from the empty source and renders the empty markup. |
| Elements.SetHtmlKeepsRoot | view.js:460 | Setting the root's content leaves the root in the document exactly when it was. |
| Elements.RemoveElementFromDom | view.js:333-348 | Tearing down keeps the page well formed. |
| Elements.RemoveElementOutcome | view.js:333-348 | Everything inside the root leaves the document. "append", "prepend" and "before" also detach the root and leave every other element alone. Every other type empties the root, which stays in the document exactly when it was. |
| Elements.TeardownRemovesCreatedElement | view.js:333-339 | For "append", "prepend" and "before", teardown right after a non-empty render takes the created element out of the document. Every earlier element stays in or out as before. |
| Elements.AfterTeardownKeepsCreatedElement | view.js:341-344 | For "after", teardown leaves the created element next to the original one, emptied, and in the document exactly when the original was. |
| Layout.LayoutView.RemoveElementFromDom | view.js:333-348 | The element becomes `Elements.RemoveElementFromDom` of the old one. |
| Layout.LayoutView.RemoveElement | view.js:316-325 | `rendered` becomes false and the element is torn down. |
| Slots.RenderView | view.js:471-483 | Throws for a key without a child. Otherwise it logs exactly one render call on that child and changes nothing else. |
| Layout.LayoutView.RenderView | view.js:471-483 | The table and result are those of `Slots.RenderView`, and the table stays valid. |
| JsValues.InsertKey | view.js:175 | Creating the property `views[key]` adds exactly that key, and keeps distinct keys distinct. |
| JsValues.InsertKeyOrdered | view.js:175 | Creating a property keeps array indices before every other key and in ascending order. |
| JsValues.InsertKeySplices | view.js:175 | Creating a property splices the new key in and keeps every old key in its order. A key that is not an array index goes last, so those keys stay in creation order. |
| JsValues.IntegerKeysFirst | view.js:297 | Keys "name", "5" and "1", created in that order, enumerate as "1", "5", "name". |
| Slots.CreateView | view.js:160-186 | `createView` keeps the calls already made as a prefix of the log. |
| Slots.CreateViewOutcome | view.js:160-186 | Per case: an existing child throws a duplicate-key error, checked before `enabled`. A disabled config returns undefined and changes nothing. A missing constructor throws. Otherwise a new handle is built with the config's options and stored under the key. It is rendered at once exactly when the layout is rendered and `render !== false`. |
| Slots.CreateViewKeepsValid | view.js:160-186 | The table stays valid, its keys still in enumeration order, and a created child's handle differs from every existing child's. |
| Layout.LayoutView.CreateView | view.js:160-186 | The table and result are those of `Slots.CreateView`, and the table stays valid. |
| Slots.Cleared | view.js:360-361 | The removed child's `remove()` is logged, the slot becomes undefined, and everything else stays. |
| Layout.LayoutView.ClearSlot | view.js:360-361 | The table becomes `Slots.Cleared` of the old one. |
| Slots.RemoveView | view.js:355-367 | An unknown-key error is thrown exactly when the key holds no child, and then nothing changes. |
| Slots.RemoveViewOutcome | view.js:355-367 | A key without a child throws and changes nothing. Otherwise the old child's removal is logged first and the other slots stay. The slot then holds the new child, or stays undefined for a disabled entry, a missing entry or a missing constructor. |
| Slots.RemoveViewKeepsValid | view.js:355-367 | `removeView` keeps the table valid, and a rebuilt child's handle differs from every earlier child's. |
| Layout.RecreatedChildOptions | view.js:362-364 | A child rebuilt from a normalized entry is constructed with `renderOnInitialize: false` and with this layout as its `layout`. |
| Layout.LayoutView.Recreate | view.js:362-364 | The config entry gets `renderOnInitialize: false`, and the slot holds what `createView` makes of it. Table and config stay valid. |
| Layout.LayoutView.RemoveView | view.js:355-367 | The table and result are those of `Slots.RemoveView`. The config entry is updated only when a child existed and the entry exists. Both stay valid. |
| Slots.CreateAll | view.js:411-415 | A creation pass keeps the calls already made as a prefix of the log. |
| Slots.CreateAllKeepsValid | view.js:411-415 | A creation pass keeps the table valid. |
| Slots.CreateAllFrame | view.js:411-415 | A creation pass only appends calls and handles, never replaces an existing child, and leaves keys outside the pass alone. |
| Slots.CreateAllInOrder | view.js:411-415 | Over distinct free keys with resolved constructors, the pass succeeds. It constructs exactly one child per enabled key, in config order, and afterwards a key holds a child exactly when it is enabled. |
| Slots.SecondPassThrows | view.js:164-166 | When every enabled key already holds a child and some key is enabled, a creation pass throws a duplicate-key error and changes nothing. |
| Slots.RenderTwiceThrows | view.js:385-418 | Creating a configuration's children twice succeeds once, then throws a duplicate-key error with the table unchanged. |
| Layout.LayoutView.CreateConfiguredViews | view.js:402-404 | The loop gives exactly `Slots.CreateAll` over the config keys, and keeps the table valid. |
| Layout.ResolveFirst | view.js:394-409 | The resolution loop keeps the config's keys and entry set. |
| Layout.ResolveFirstEntry | view.js:394-409 | After the first n keys, an entry carries its new constructor exactly when it is among them and resolved at once. |
| Layout.ResolveNow | view.js:394-409 | The synchronous callbacks keep the keys and entry set, and a valid config stays valid. |
| Layout.ResolveNowEntries | view.js:394-409 | Exactly the entries resolved at once carry their constructor. Every other entry is unchanged. |
| Layout.ResolveNowKeepsCanonical | view.js:396-398 | Assigning the constructors resolved at once keeps every entry normalized. |
| Layout.NowCount | view.js:394-409 | No more resolutions complete at once than there are entries. |
| Layout.ResolveAll | view.js:394-409 | The loop gives exactly `ResolveNow`, and `counterLoaded` equals the number of resolutions completed at once. |
| RenderJoin.Resolved | view.js:396-405 | A completion bumps `counterLoaded` and keeps `counter`. It creates the children exactly when `counter` is set, `counterLoaded` has reached it, and they were not created yet. `viewsRendered` is then set. |
| RenderJoin.LoopEnded | view.js:394-415 | After the loop, `counter` holds the number of entries and `counterLoaded` and `viewsRendered` are untouched. The check creates the children exactly when there is an entry and all resolutions have completed. |
| Layout.DefaultHookResolvesAll | view.js:198-202 | The shipped `extractViewConstructor` calls back at once for every entry. |
| Layout.DefaultHookCreatesAfterLoop | view.js:198-202 | With the shipped hook, the check after the loop creates the children exactly when the config has an entry. |
| Layout.DefaultHookNonConstructorThrows | view.js:198-202 | With the shipped hook, a first enabled entry whose `view` is not a function makes the creation pass throw a not-a-constructor error for that key. |
| Layout.ModuleNameEntryThrows | view.js:175 | For the config `{a: "m"}` with the shipped hook, the check after the loop fires and the creation pass throws a not-a-constructor error for "a", so `new View(options)` throws. |
| RenderJoin.NoCreationDuringLoop | view.js:396-405 | While `counter` is still 0, callbacks only bump `counterLoaded` and never create children. |
| RenderJoin.LastCallbackCreates | view.js:396-405 | With `counter` set and children not created, the callback that brings `counterLoaded` to `counter` creates them, and no earlier one does. |
| RenderJoin.NoCreationAfterAllLoaded | view.js:400-405 | Once the children were created or `counterLoaded` has reached `counter`, no callback creates them again. |
| RenderJoin.JoinCreatesOnceAtLastResolution | view.js:385-418 | With n entries, of which any number resolve during the loop, the children are created exactly once, at the last of the n + 1 events, and never with no entries. |
| Layout.LayoutView.RenderConfig | view.js:385-418 | Resolutions completed at once assign their constructors, and the pass's counters are recorded. The children are created after the loop exactly when every resolution has completed. Otherwise the table is unchanged. |
| Layout.LayoutView.Completed | view.js:397-401 | A completion bumps `counterLoaded`. It reports the children as due exactly when `Resolved` says so. |
| Layout.LayoutView.AssignConstructor | view.js:398 | `config[key].constructor` is assigned, and the config stays normalized. |
| Layout.LayoutView.Resolve | view.js:396-406 | A late completion assigns the constructor and updates its pass's counters. It runs the creation pass exactly when that was the last resolution and the children were not yet created. |
| Layout.LayoutView.Render | view.js:374-379 | The view is left valid and in the state `AfterRender` names. It is rendered. The page is the old one, or the template inserted into it when the markup is non-empty. The constructors resolved at once are assigned and one pass is recorded. The children were created after the loop exactly when that pass fired there, and the table is otherwise unchanged. A falsy template leaves the page alone. |
| Slots.RemovalCalls | view.js:297-300 | One `remove()` per key, in the order of the keys, on the child under that key. |
| Slots.EachChildRemovedOnce | view.js:297-300 | Over distinct keys holding distinct children, the removal calls hit every child exactly once and nothing else. |
| Slots.KeysListed | view.js:297 | In a valid table the iterated keys are exactly the keys of `views`. |
| Slots.RemoveCallsEveryChild | view.js:295-301 | For a valid table whose every slot holds a child, `remove` removes each child exactly once. |
| Layout.LayoutView.RemoveChildren | view.js:297-300 | The loop appends exactly `RemovalCalls` and changes nothing else in the table. |
| Layout.LayoutView.Remove | view.js:295-308 | Every child is removed in the enumeration order of `views` and `views` is emptied. `rendered` becomes false and the element is torn down. The view stays valid. |

## Left out

- The page is an abstraction: jQuery, the real DOM and HTML parsing are not modelled. Rendered markup always becomes exactly one element, whereas `jQuery(html)` may parse into several.
- Backbone's own view behaviour (`BackboneView.call`, `delegateEvents`, `undelegateEvents`, `setElement` beyond changing the root, `cid` assignment) is not part of this model. `cid` is a constructor parameter.
- `console.debug` logging and the UMD module wrapper are left out; they have no effect on state.
- The `on` option is modelled only as "not copied". Binding its handlers (`this.on`) belongs to Backbone's event system, which is not modelled.
- `lodash.template` is the parameter `evaluate`. Of it the model assumes only that the empty source renders the empty string (`RendersEmptySource`), which every rendering method requires. The `extractViewConstructor` hook is the parameter `hook`. Deferred resolutions are delivered by calling `Resolve`.
- Children are handles. Their own `render()` and `remove()` are logged calls, not executed.
- Slots.CreateView: `new config.constructor(…)` when no constructor was assigned would build a plain object through the inherited `Object` constructor. The model reports `NotAConstructor` instead.
- Slots.RemoveView: `Object.assign(this.config[key], …)` on a missing entry is reported as `MissingConfig`, after the old child's removal, where JavaScript throws a `TypeError`.
- A non-object `config` option (a string or a number) is treated as no slots.
- Initialization.NormalizeEntry: a view instance or a config object written directly as an entry is read as an object without slot properties. Its own properties are not modelled.
- The keys of the `config` object passed in are taken in the order given. The model does not recompute that object's enumeration order.
- Layout.LayoutView.Initialize: the entry objects of `config` are shared with whoever else holds them: the prototype's `config`, or one `config` object passed to several views. `lodash.mapValues` hands the original entries to the callback, and `lodash.defaults` and `Object.assign(config.options || {}, …)` write into them in place, as do `removeView` and the resolution callbacks later. So with two views over shared entries, `options.layout` names whichever view was initialized last, and the earlier view's rebuilt or late-created children get the wrong `layout`. The model gives each view its own copy. `AllCanonical` and `Layout.RecreatedChildOptions` hold only for entries that no other view shares.
- A `views` option given to the constructor, which would replace the child table, is not modelled. The table always starts empty.
- Slots.CreateView: `views` is modelled as an object without inherited properties. In the source, `this.views[key] !== undefined` also holds for names that `Object.prototype` provides ("constructor", "toString", "valueOf", "hasOwnProperty", "__proto__", …). For such a key `createView` throws a duplicate-key error where the model creates a child. `renderView` and `removeView` skip the unknown-key error and fail with a `TypeError` where the model reports `UnknownKey`.
- Layout.Copied: only the name reads a subclass's prototype (`protoName`). The other defaults are `View.prototype`'s (`template`, `templateInsertType`, `renderOnInitialize`, `config`), so a subclass's own prototype values can only be given as options.
- Layout.LayoutView.Remove requires every slot to hold a child. The source crashes on an `undefined` slot left by `removeView`, and the model does not reproduce that crash.
- Late resolution callbacks arriving after `remove()` are modelled only through `Resolve`, which still requires the view to be valid.
