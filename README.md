# A verified model of the yandex-messenger component runtime and form field

This project models, in Dafny, the two pieces of logic the front end of the
messenger is built on.

- **`Block`**, the component runtime (`src/modules/Block.ts`):
  - identity tokens `pp_<a>_<b>_uid`;
  - the registry of live components;
  - prop patching and the per-component event bus, with its handlers for
    `updated`, `eventAttached` and `preparing`;
  - building a component's nodes, marked with its token;
  - the tree walk that resolves template placeholders in text and attributes
    and turns `on*` attributes into native listeners;
  - the replacement of a component's nodes in the document, with pruning of
    duplicates and `mounted` notifications.
- **`Input`**, the form field (`src/components/forms/Input.ts`):
  - the initial value;
  - when focus validates;
  - the placeholder toggle;
  - the value validation sees;
  - the pairing of a password field with its repeat field;
  - the error bookkeeping after validation.

The model is organised as follows.

- `values.dfy` (`Values`): dynamically typed prop values and JavaScript
  truthiness.
- `dom.dfy` (`Dom`): an abstract document tree.
  - Elements carry an identity, a tag, an ordered attribute list and
    children; text and comment nodes carry their data.
  - `Marked` is `querySelectorAll('[data-blockuid=…]')`, listing paths in
    document order.
  - It also holds removal and replacement at a path, `normalize`, and the
    lemmas about them.
- `uid.dfy` (`Uid`): the token format, its parser, and the round trip
  between them.
- `templates.dfy` (`Templates`):
  - the template engine's output (`Asset`) and the engine itself, which is a
    parameter;
  - the attribute walk stated as functions of the attribute list
    (`ResolvedAttrs`, `AttachedBy`) and the lemmas about them.
- `block.dfy` (`Blocks`): the runtime.
  - `Env` holds the process-wide state: the token set, the registry, the
    document body and the native listener table.
  - The unseen collaborators are fixed function fields of `Env`:
    `Templator.resolve`, `objIntersect`, and calling a function placeholder
    as a renderer.
  - `Block` is a class whose fields the methods update: `props`, the native
    listener log, the bus log `fired`, and the last built `element`.
  - The bus is modelled as its log. Firing an event appends it, then runs
    the handler `registerEvents` installs.
  - The walk methods take and return node sequences. Only
    `ReplaceMultipleNodes` edits the document.
  - `PreparedBy` states what a `preparing` cascade may do to all the
    components at once: bus logs only gain `preparing`, native listener logs
    are kept or emptied, and listeners only leave the table, each from a log
    that is now empty.
- `walk.dfy` (`Walks`): what a walk produces, as functions of what it reads.
  - `Ctx` holds the template engine, the renderers and every registered
    component with its props.
  - `WalkF`/`ChildF` are `traverseChildren`, `NodeF` is `resolveNode`,
    `FragmentF` is the fragment of `replaceNode`, and `BuildF` is `build`.
  - The runtime's methods are proved to return exactly these nodes. The
    lemmas say what the walk keeps: every element at any depth, the
    top-level nodes in place, and a static forest unchanged.
- `listeners.dfy` (`Listeners`): what the runtime does to native listeners,
  as functions of what it reads.
  - `Natives` holds every registered component's listener log, by token,
    and the listener table.
  - `AttachL` is `eventAttached` together with the `addEventListener` of the
    attribute walk. `DetachL` is the first half of `preparing`. `PrepareL`
    is the whole `preparing` cascade.
  - `WalkL`, `ChildL`, `NodeL`, `PartsL` and `BuildL` follow `WalkF`,
    `NodeF` and `BuildF` node by node, and return the listener state a walk
    leaves.
  - The runtime's methods are proved to leave exactly that state. `Reach`
    is the set of components a cascade fires on. The lemmas say that a
    cascade empties exactly the logs in its reach, and removes exactly their
    listeners from the table (`Swept`). They also say that a static forest
    leaves the state alone, and that a re-render sweeps the old listeners
    before it attaches new ones.
- `input.dfy` (`Inputs`):
  - the field's pure rules as functions, with lemmas about them;
  - an `Input` class that wraps its `Block` and carries the handlers;
  - `Field` (the DOM element whose `value` the toggle writes);
  - `FormState` (the submit state);
  - `PasswordBus` (the `passwordFieldChange` channel).

## Model

| member | source | states |
|---|---|---|
| Blocks.Env.constructor | src/modules/Block.ts:5-20 | The process starts with no token taken, no component registered and no native listener, over the given document and collaborators. |
| Blocks.Env.GenerateUid | src/modules/Block.ts:7-18 | The token returned was not taken before the call. It is built from the first pair of draws whose token is free, and parses back to two draws in 1..99999. It is added to the token set. Every token handed out so far stays pairwise distinct (`Valid`). |
| Uid.FirstFresh | src/modules/Block.ts:11-15 | The do-while stops at a pair whose token is free, and every earlier pair gave a taken token. |
| Uid.Token | src/modules/Block.ts:14 | A token has the shape `pp_` … `_uid`. |
| Uid.TokenRoundTrip | src/modules/Block.ts:14 | Parsing a token gives back the two draws it was made from. |
| Uid.TokenInjective | src/modules/Block.ts:14 | Different draws give different tokens. |
| Uid.DecRoundTrip | src/modules/Block.ts:14 | The decimal text a template literal writes for a number reads back as that number. |
| Blocks.Block.constructor | src/modules/Block.ts:51-66 | The new instance gets a fresh token and is registered under it. The registry is otherwise unchanged. The props are the given ones. The native listener log and the bus log start empty. |
| Blocks.Block.FireAttached | src/modules/Block.ts:70-72 | `eventAttached` appends exactly its record to the native listener log. It logs one event, which is not `updated`. |
| Blocks.Block.FirePreparing | src/modules/Block.ts:73-84 | `preparing` is logged on this component, its native log ends empty, and none of its logged listeners stays in the table. Across all components the whole cascade is a `PreparedBy` step: bus logs only gain `preparing`, native logs are kept or emptied, the table only loses listeners, none from an emptied log stays, and each one removed was in a log now empty. With fuel left, every registered component below this one's marked nodes ends with an empty native log and at least one more `preparing`. The logs and table end as `PrepareL` says, and every component outside the cascade's reach (`Reach`) keeps its bus log and native log. |
| Blocks.Block.PrepareDescendants | src/modules/Block.ts:81-83 | While fuel lasts, every registered component below this one's marked nodes ends with an empty native log and a longer bus log, and the step is a `PreparedBy` step. The logs and table end as `PrepareAllL` of the descendants says. A component outside the reach keeps both its logs. |
| Blocks.Block.DetachSelf | src/modules/Block.ts:73-80 | This component logs `preparing`, its native log is emptied, and the table loses exactly the listeners it had logged (`DetachL`). Every other component is left as it was. |
| Blocks.Block.DetachAll | src/modules/Block.ts:74-80 | Every logged listener is removed from the document's listener table, and no other listener is. The log ends up empty. |
| Blocks.Block.PrepareAll | src/modules/Block.ts:81-83 | Every registered component whose token is listed ends with an empty native log and a longer bus log, grown by `preparing` only. The whole loop is a `PreparedBy` step, so each listener it removes belonged to an emptied log and none of an emptied log stays. The logs and table end as `PrepareAllL` says, and every component outside `ReachAll` of the list keeps both its logs. |
| Blocks.Block.PrepareNext | src/modules/Block.ts:81-83 | One iteration: the cascade so far, up to `ds[..k]`, extends to `ds[..k + 1]`, both as a `PreparedBy` step and as `PrepareAllL`, and the components outside the reach still keep their logs. |
| Blocks.Block.PrepareToken | src/modules/Block.ts:81-83 | One listed token: a registered component ends with an empty native log and a longer bus log, and the step is a `PreparedBy` step. The logs and table end as `PrepareTokenL` says, and every component outside `ReachToken` keeps both its logs. |
| Blocks.PreparedTrans | src/modules/Block.ts:73-84 | Two cascade steps in a row are one cascade step. |
| Blocks.DetachPrepared | src/modules/Block.ts:74-80 | Logging `preparing` on one component, emptying its native log and removing its logged listeners, while every other component stays, is a cascade step. |
| Blocks.EmptiedStep | src/modules/Block.ts:81-83 | After one more step that empties the component under a token, that token joins the emptied ones and the earlier ones stay emptied. |
| Blocks.PreparedHeap | src/modules/Block.ts:73-84 | After a cascade step the listener table is a subset of the old one, every bus log has grown without an `updated`, and every native log is kept or empty. |
| Blocks.PreparingGrows | src/modules/Block.ts:73-84 | Appending only `preparing` events adds no `updated`. |
| Listeners.ListenerSet | src/modules/Block.ts:74-79 | A listener is in the set exactly when it is in the log. |
| Listeners.SweptDetach | src/modules/Block.ts:74-80 | Detaching a registered component sweeps exactly it: its log is emptied, other logs stay, and the table loses exactly its listeners. |
| Listeners.SweptTrans | src/modules/Block.ts:73-84 | Two sweeps in a row are one sweep of the union of the swept tokens. |
| Listeners.SweptWiden | src/modules/Block.ts:81-83 | A sweep stays a sweep of a larger set when the added tokens have no log. |
| Listeners.PrepareSweeps | src/modules/Block.ts:73-84 | The `preparing` cascade on a registered component sweeps exactly the components it reaches: their logs end empty, every other log is unchanged, and the table loses exactly their listeners. |
| Listeners.PrepareAllSweeps | src/modules/Block.ts:81-83 | `preparing` on the components of a token list sweeps exactly `ReachAll` of the list. |
| Listeners.PrepareTokenSweeps | src/modules/Block.ts:81-83 | `preparing` on the component under one token, if any, sweeps exactly `ReachToken`. |
| Blocks.Block.FireLogged | src/modules/Block.ts:138 | `rendered` (here) and `mounted` (the fire in `replaceNode` at `src/modules/Block.ts:205`, through `MountLive`) only add their log entry. |
| Blocks.Block.SetProps | src/modules/Block.ts:87-92 | When `objIntersect` holds, nothing changes and nothing fires. Otherwise the props become the old props overridden by the patch, and exactly one `updated` is fired on this component. No other component's bus gets an `updated`. After a real update, if the component has no node in the document, the document, the listener table, every native log and `element`, and every other bus log stay as they were. If it has a node, its duplicates are pruned and its first node is replaced by the normalised fragment of `[this]` under the new props. That fragment's top-level elements are those of the new render, in order, marked and resolved. The logs and table end as the re-render's `PartsL` says. |
| Blocks.Block.Refresh | src/modules/Block.ts:94-96 | Exactly one `updated` is fired. With no node in the document, nothing else changes: not the document, the listener table, any native log, any `element` or any other bus log. Otherwise the component's duplicates are pruned and its first node is replaced by the normalised fragment of `[this]`, whose top-level elements are those of `render(props)`, in order, marked and resolved. A component that renders an element and whose token resolves to itself is back in the document, and its last event is `mounted`. The logs and table end as the re-render's `PartsL` says. |
| Blocks.Block.FireUpdated | src/modules/Block.ts:67-69 | Exactly one `updated` is added to this component's log, and other logs grow without one. With no node in the document nothing else changes: not the document, the listener table, any native log, any `element` or any other bus log. Otherwise its duplicates are pruned and its first node is replaced by the normalised fragment of `[this]`, which then holds all its marked nodes. That fragment's top-level elements are those of `render(props)`, in order, marked with the token and with their attributes resolved by the build and again by the walk of the asset. The logs and table end as `PartsL` of `[this]` says: by `Listeners.UpdatedL`, the old listeners are first swept, then both walks attach theirs. A live component is mounted last. |
| Walks.UpdatedHeads | src/modules/Block.ts:67-69 | The fragment that replaces a component has as its top-level elements exactly its rendered top-level elements, in order, marked with its token and with their attributes resolved twice in its context. |
| Walks.BlockFragment | src/modules/Block.ts:191-201 | The fragment of a lone component asset is that component's build, walked once more and normalised. |
| Listeners.UpdatedL | src/modules/Block.ts:67-84 | Re-rendering a component in place is: the `preparing` cascade, then the build's walk, then the walk of the built nodes, both in its own context. The cascade sweeps exactly what it reaches, and the component's old listeners leave its log and the table before any new one is attached. |
| Blocks.Block.Build | src/modules/Block.ts:128-140 | The result is `BuildF`: the rendered nodes, top-level elements marked with the token, walked in this component's context. It is stored as `element`. Each rendered top-level node keeps its place: an element keeps its identity and tag and carries the marker with its attributes resolved, and text and comments stay. `preparing` is logged first and `rendered` last. The document is untouched. The logs and table end as `BuildL` says: the `preparing` cascade, then the walk's listeners attached. |
| Blocks.Block.BuildElement | src/modules/Block.ts:130-139 | The walked build `BuildF` is kept as `element` and returned. Each rendered top-level node keeps its place as above. The marker is kept when the token resolves to itself. `rendered` is the last event logged. The logs and table end as `WalkL` of the marked render says. |
| Blocks.Block.WalkRendered | src/modules/Block.ts:130-137 | The rendered nodes, marked and walked in this component's context (`BuildF`). Each keeps its place as above. No bus gets an `updated`, and the document is not touched. The logs and table end as `WalkL` of the marked render says. |
| Walks.BuildTop | src/modules/Block.ts:128-140 | A build has one node per rendered node. A rendered element keeps its identity and tag, carries the token and has its attributes resolved. Text and comments stay. |
| Walks.BuildHeads | src/modules/Block.ts:128-140 | A build's top-level elements are the rendered ones, in order, marked and with their attributes resolved. |
| Blocks.Block.BuildNode | src/modules/Block.ts:146-161 | Every node of the holder moves to the fragment, in order. Each one is passed through the tagging callback. |
| Walks.MarkTop | src/modules/Block.ts:131-135 | Exactly the element nodes get the marker set to the token. Their identity, tag, children and other attributes are kept. Text and comments are untouched. |
| Walks.MarkHeadsAll | src/modules/Block.ts:131-135 | Marking keeps the top-level elements, in order, and sets the marker on each. |
| Blocks.Block.ReplaceMultipleNodes | src/modules/Block.ts:163-171 | With no match, nothing changes and nothing fires. Otherwise all matches but the first are removed, and the first is replaced by the fragment `FragmentF` of the assets. Afterwards the document holds as many marked nodes as the fragment. No bus gets an `updated`, and each live component asset gets one `mounted` per occurrence. With a match, the logs and table end as `PartsL` of the assets says. |
| Blocks.Block.ReplaceMarked | src/modules/Block.ts:165-170 | With at least one match: the matches after the first are removed, and the first is replaced by the fragment `FragmentF` of the assets, which then holds every marked node. Each mountable component asset leaves a marked node, and each live one gets one `mounted` per occurrence. The logs and table end as `PartsL` of the assets says. |
| Blocks.Block.RemoveDuplicates | src/modules/Block.ts:166-168 | The loop returns the path of the first match. The document is what keeping only the first match gives, and exactly that one match remains. |
| Dom.DropLastMarked | src/modules/Block.ts:166-168 | One iteration: removing the last of the remaining matches leaves the matches before it, in order, and does not change the end result of the loop. |
| Dom.KeepFirstMarked | src/modules/Block.ts:166-168 | Removing the marked nodes from the last backwards leaves only the first one, at its original path. Exactly one marked node remains. |
| Dom.RemoveLastMarked | src/modules/Block.ts:166-168 | Removing the last marked node (document order) leaves the other marked nodes at their paths, in order. |
| Dom.RemoveIsReplaceEmpty | src/modules/Block.ts:167 | Removing a node from its parent is replacing it by an empty fragment. |
| Dom.ReplaceAtCount | src/modules/Block.ts:202 | Replacing a node by a fragment trades the marked nodes of that node's subtree for the fragment's. The rest of the document keeps its own. |
| Dom.ReplaceSoleMarked | src/modules/Block.ts:169 | When exactly one node is marked, replacing it leaves exactly the fragment's marked nodes. |
| Dom.Marked | src/modules/Block.ts:164 | The selector lists one path per marked node. |
| Dom.MarkedCount | src/modules/Block.ts:164 | The selector finds one path per marked node. |
| Dom.MarkedSound | src/modules/Block.ts:164 | Every path the selector finds leads to a marked node. |
| Dom.MarkedSoundAll | src/modules/Block.ts:164 | Every path in the selector's list is valid in the document and leads to a marked node. |
| Dom.TaggedAtCounts | src/modules/Block.ts:98-100 | A marked node at a valid path means the component is in the document. |
| Dom.TokensF | src/modules/Block.ts:114-117 | Only non-empty `data-blockuid` values are collected. |
| Dom.DescendantsF | src/modules/Block.ts:107-126 | Every token visited is the non-empty marker of an element of the document. |
| Dom.NoMarkerNoDescendants | src/modules/Block.ts:107-126 | A component with no node in the document has no descendants to visit. |
| Blocks.Block.ResolveNode | src/modules/Block.ts:173-189 | The result is `NodeF` of the asset. A string becomes its text node. Anything unresolvable becomes an empty text node. A function's nodes are walked in this context, one node per rendered node, each kept in place. A registered component's build keeps its length and element positions, keeps its marker when the token resolves to itself in both contexts, and leaves a marked node when mountable. An element keeps everything but its walked children. The logs and table end as `NodeL` says. |
| Blocks.Block.ResolveRenderer | src/modules/Block.ts:177-179 | The renderer's nodes walked in this context (`WalkF`). There is one node per rendered node, and each keeps its place: an element keeps its identity and tag and has its attributes resolved. The logs and table end as `WalkL` of those nodes says. |
| Blocks.Block.ResolveBlock | src/modules/Block.ts:180-183 | The component's build (`BuildF`) walked again in this context. Each rendered top-level node keeps its place through both walks: the build marks it and resolves its attributes in the component's props, and the second walk resolves them in this one's. The marker is kept when the token resolves to itself in both contexts. A mountable component leaves at least one marked node. The logs and table end as `BuildL` followed by `WalkL` of the build says. |
| Blocks.RebuiltTop | src/modules/Block.ts:180-183 | A build walked again has one node per rendered node, each kept in place through both walks. |
| Blocks.RebuiltTagged | src/modules/Block.ts:180-183 | When the token resolves to itself in both contexts, every top-level element of the rebuilt nodes carries it. |
| Blocks.RebuiltCounts | src/modules/Block.ts:180-183 | Under the same condition, a component that renders an element leaves a marked node. |
| Blocks.Block.ResolveElement | src/modules/Block.ts:184-186 | An element asset is kept, with only its children walked. With nothing to resolve below it, it comes back unchanged. The logs and table end as `WalkL` of the children says. |
| Blocks.Block.ReplaceNode | src/modules/Block.ts:191-208 | The fragment is `FragmentF`: the assets resolved in order (`NodeF`), concatenated and normalised. For string assets its text is their concatenation. It takes the node's place in the document (a path) or leaves the document alone. Each component asset that is live afterwards gets one `mounted` per occurrence. Each mountable component asset leaves a marked node in the fragment. The logs and table end as `PartsL` of the assets says. |
| Blocks.Block.ResolveFragment | src/modules/Block.ts:192-201 | The fragment is `FragmentF` of the assets. The component assets are listed in order. For string assets the text is their concatenation. Each asset that was mountable before the call leaves a marked node. The document is not touched. The logs and table end as `PartsL` says. |
| Blocks.Block.ResolveAll | src/modules/Block.ts:194-200 | The parts are the resolutions of the assets, concatenated in order (`PartsF`). The registered component assets are listed in order. String assets contribute their text. The logs and table end as `PartsL` says. |
| Blocks.Block.ResolveInto | src/modules/Block.ts:195-199 | One asset: the parts become the old parts followed by its resolution (`NodeF`). It is listed when it is a registered component. The props and registry the walk reads are unchanged. The logs and table end as `NodeL` of the asset says. |
| Blocks.Block.MountLive | src/modules/Block.ts:203-207 | Each listed component that has a node in the document gets one `mounted` per occurrence. The others get nothing. |
| Dom.Normalize | src/modules/Block.ts:201 | The result has no empty text nodes and no adjacent text nodes, at any depth. |
| Dom.NormalizeKeepsText | src/modules/Block.ts:201 | Normalising keeps the text content. |
| Dom.NormalizeKeepsMarkers | src/modules/Block.ts:201 | Normalising keeps every marked element. |
| Dom.NormalizeIdempotent | src/modules/Block.ts:201 | A normalised forest is unchanged by normalising again. |
| Walks.NormalizeKeepsHeads | src/modules/Block.ts:201 | Normalising keeps the top-level elements, in order. |
| Blocks.Block.TraverseText | src/modules/Block.ts:210-215 | A text that resolves to exactly itself stays, and nothing fires or changes in the logs and table. Any other text is replaced by the normalised fragment of its resolution (`FragmentF`), and the logs and table end as `PartsL` of the resolution says. |
| Blocks.Block.TraverseChildren | src/modules/Block.ts:217-231 | The result is `WalkF` of the forest: every node, at every depth, becomes what the walk makes of it. A forest with nothing to resolve comes back unchanged and leaves the logs and table as they were. Outside an element every top-level node keeps its place: an element keeps identity and tag and gets its attributes resolved, and text and comments are untouched. No bus gets an `updated`. The logs and table end as `WalkL` says, at every depth. |
| Blocks.Block.WalkChildren | src/modules/Block.ts:221-230 | The loop from the last child to the first yields the walk of the whole forest, and leaves the logs and table as `WalkL` of the whole forest says. |
| Walks.WalkSplice | src/modules/Block.ts:221-230 | One iteration of that loop: the nodes before the index are untouched and the walked suffix grows by one node. |
| Walks.WalkKeepsElements | src/modules/Block.ts:221-224 | The walk drops no element at any depth. Every element of the forest is in the result with its identity and tag and its attributes resolved. |
| Walks.WalkTop | src/modules/Block.ts:221-229 | Outside an element the walk keeps the number of nodes, and each top-level node keeps its place. |
| Walks.WalkHeads | src/modules/Block.ts:221-224 | Outside an element the walk keeps the top-level elements, in order, with their attributes resolved. |
| Walks.WalkStatic | src/modules/Block.ts:217-253 | A forest with nothing to resolve comes out of the walk unchanged. |
| Listeners.WalkStaticL | src/modules/Block.ts:217-253 | A forest with nothing to resolve attaches nothing and fires nothing: the logs and table are unchanged. |
| Listeners.WalkLStep | src/modules/Block.ts:221-230 | The walk of a suffix is the walk of its first node applied after the walk of the rest (the last node first). |
| Blocks.Block.TraverseChild | src/modules/Block.ts:222-229 | An element is walked in place. Text is walked only directly inside a non-SCRIPT element. Comments stay. The logs and table end as `ChildL` says. |
| Blocks.Block.TraverseElement | src/modules/Block.ts:222-225 | An element keeps its identity and tag, gets `ResolvedAttrs` as its attributes, and has its children walked. With nothing to resolve, it comes back unchanged. No bus gets an `updated`. The listeners `AttachedBy` its attributes are appended to this component's log and added to the table (`AttachL`), and then the children's walk acts as `WalkL` says. |
| Blocks.Block.TraverseAttributes | src/modules/Block.ts:233-253 | The attribute list becomes `ResolvedAttrs`. The listeners in `AttachedBy` are added to the document, to the native listener log and, as `eventAttached` events, to the bus, in walk order. |
| Blocks.Block.TraverseAttribute | src/modules/Block.ts:235-251 | One attribute: it is attached and removed, rewritten, or kept, as `Step` decides. |
| Templates.ResolvedAttrs | src/modules/Block.ts:233-253 | The walked list is never longer than the original. A first attribute that is not a handler survives under its name, and a handler is dropped. |
| Templates.AttachedBy | src/modules/Block.ts:233-253 | At most one listener per attribute. A handler as first attribute gives the last listener, with its event type and callback, because the walk runs backwards. |
| Templates.StepOf | src/modules/Block.ts:237-251 | An `on*` attribute whose first asset is a function is attached, with event type `name[2..]`. A non-`on` attribute is rewritten exactly when its first asset is a different string. Otherwise it is kept. |
| Templates.AttachedCount | src/modules/Block.ts:233-253 | Every attribute is either kept or becomes exactly one listener. |
| Templates.HandlersStripped | src/modules/Block.ts:237-245 | No attribute resolving to a callback survives the walk. |
| Templates.InertEventAttrsKept | src/modules/Block.ts:237-245 | An `on*` attribute that does not resolve to a function is left untouched. |
| Templates.AttachedAreHandlers | src/modules/Block.ts:237-245 | A listener is attached if and only if some attribute of the element resolves to that callback, with that event type. |
| Templates.NonEventAttrResolved | src/modules/Block.ts:246-250 | A non-`on` attribute is still found under its name, holding its resolved value. |
| Templates.StaticAttrsUntouched | src/modules/Block.ts:233-253 | When every attribute resolves to nothing new, the list is unchanged and nothing is attached. |
| Blocks.TaggedSurvivesWalk | src/modules/Block.ts:136-137 | A marked element stays marked through the walk when its token resolves to itself. |
| Dom.SetAttr | src/modules/Block.ts:133 | The attribute then holds the value. Every other attribute reads as before. The list grows only when the name was absent. |
| Inputs.InitialValue | src/components/forms/Input.ts:25 | The value if truthy, else the placeholder if truthy, else `''`. |
| Inputs.InitialValueIsString | src/components/forms/Input.ts:25 | With string or missing value and placeholder, the initial value is a string. It is empty only when both are falsy. |
| Inputs.Patch | src/components/forms/Input.ts:24-43 | The constructor's patch holds the initial value and the three handlers under `onFocus`, `onBlur` and `onInput`, and nothing else. |
| Inputs.NewBlock | src/components/forms/Input.ts:22-43 | A component that was not registered before is registered. Unless `objIntersect` holds, its props are the given props overridden by the patch: the value is the initial value, `onFocus`, `onBlur` and `onInput` hold the three handlers, and every prop outside the patch is kept. When `objIntersect` holds, the props are the given ones. When the document has no node marked with the new token, it is left unchanged. |
| Inputs.Input.constructor | src/components/forms/Input.ts:21-58 | The component is registered. Unless `objIntersect` holds, its props are the given props overridden by the patch: the value is the initial value, `onFocus`, `onBlur` and `onInput` hold the three handlers, and the other props are kept. When the document has no node marked with the new token, it is left unchanged. A repeat password field, and no other field, is subscribed to the password channel. |
| Inputs.FocusValidates | src/components/forms/Input.ts:27-29 | Focus never validates an empty value, nor one equal to a truthy placeholder. It always validates a non-empty value when there is no truthy placeholder. A validated string value is non-empty. |
| Inputs.Input.OnFocus | src/components/forms/Input.ts:26-33 | Without the focus guard, nothing but the toggle happens. With it, validation runs: an announcing field hands its value to every repeat field as `value2`, and the error patch is applied. The toggle always runs, with the placeholder as it was. |
| Inputs.Input.OnBlur | src/components/forms/Input.ts:34-37 | Validation runs: an announcing field hands its value to every repeat field as `value2`, no other field changes, and the error patch is applied. Then the toggle runs. |
| Inputs.Input.OnInput | src/components/forms/Input.ts:38-42 | The `value` prop takes the field's value, and nothing else changes. Validation will see it unless it equals the placeholder. |
| Inputs.Input.OnSubmit | src/components/forms/Input.ts:45-50 | Validation runs with the form state: an announcing field hands its value to every repeat field as `value2`, the error patch is applied and the message is recorded. |
| Inputs.FocusSeesRealValue | src/components/forms/Input.ts:27-31 | When focus validates a string value, validation sees exactly that value, and it is not empty. |
| Inputs.ActualValue | src/components/forms/Input.ts:95-103 | `''` when a placeholder is defined and equals the value. The value when it is a string. `''` otherwise. |
| Inputs.ValidationProps | src/components/forms/Input.ts:104-107 | The lookup sees every prop unchanged except `value`, which holds the actual value. |
| Inputs.Broadcasts | src/components/forms/Input.ts:90-92 | Only a password field with a string name announces its value, and its name does not end in `2`. A password field with an empty name does announce. |
| Inputs.Receives | src/components/forms/Input.ts:53-54 | Only a password field whose string name ends in `2` listens, and a listening field never announces. |
| Inputs.PairPartition | src/components/forms/Input.ts:90-92 | A password field with a string name either announces its value or listens for it, never both. |
| Inputs.PasswordBus.Broadcast | src/components/forms/Input.ts:55-57 | Every subscriber's `value2` prop takes the announced value. No other prop changes. |
| Inputs.Toggled | src/components/forms/Input.ts:61-72 | With a string placeholder and an event type: an empty field shows the placeholder on blur, and a field showing the placeholder empties on focus. Any other case leaves the value. |
| Inputs.TogglePairRoundTrip | src/components/forms/Input.ts:65-69 | Focus then blur restores the placeholder. Blur then focus empties the field again. |
| Inputs.ToggleIdempotent | src/components/forms/Input.ts:65-69 | Toggling twice for the same event type is the same as toggling once. |
| Inputs.ToggleOutcome | src/components/forms/Input.ts:65-69 | With a non-empty placeholder, a focused field never shows it and a blurred field is never empty. |
| Inputs.Input.TogglePlaceholder | src/components/forms/Input.ts:61-72 | An event's target takes the toggled value. |
| Inputs.Input.Validate | src/components/forms/Input.ts:89-119 | Only a password field not named `…2` announces its value. The props take the error patch (unless `objIntersect` holds). The form state records the message. |
| Inputs.Input.ReportMessage | src/components/forms/Input.ts:109-118 | The error patch is applied through `setProps`, and `errorMsgs` is updated as `Recorded` says. |
| Inputs.ErrorPatch | src/components/forms/Input.ts:109-118 | The patch only ever sets `error`. There is none exactly when there is no message (or the name is not a string) and no present error. |
| Inputs.ErrorReflectsMessage | src/components/forms/Input.ts:109-118 | After the patch the field shows an error exactly when the lookup gave a message and the name is a string. No other prop changes. |
| Inputs.ErrorPatchKeepsPlaceholder | src/components/forms/Input.ts:109-118 | Validation never changes the placeholder, the value or the name. |
| Inputs.Recorded | src/components/forms/Input.ts:111-114 | The message is recorded under the field's name when `errorMsgs` is an object. Every other entry is kept. Without a message nothing changes. |

## Left out

- Parsing and serialising HTML (`innerHTML`, `trim`): a render function
  yields the node sequence directly.
- The default `render` (`${props.value}`).
- The template engine, the event bus, `rand`, `objIntersect` and
  `getValidationMessage` are not part of this model. Each is a parameter:
  - `Env.resolve`;
  - the log `fired` and its handlers;
  - a supplied sequence of draws;
  - `Env.objIntersect`;
  - `Input.getMsg`.

  `Env.resolve` is a pure function, and the registry is fixed during a
  walk. A template that constructs a component while it is being resolved,
  such as `%{ Input(...) }%` in `src/pages/profile_edit.ts:37`, cannot
  register it in the model. Such a template can only name a component
  registered before the walk, and a token that is not registered resolves
  to an empty text node.
- `renderToBody`, the bootstrap on the global `load` event.
- `isInDOM`, `getContent` and `listDescendants` are not separate members.
  `isInDOM` is `CountF(body, uid) > 0`, and the other two are
  `Marked`/`DescendantsF`. The `|| this.element` fallback of `getContent` is
  never taken, because a node list is always truthy.
- The recursion of build, walk, replace and resolve, and the `preparing`
  cascade, have no termination argument in the source. They carry a `fuel`
  bound. With no fuel left:
  - a function, component or element asset resolves to an empty text node;
  - the cascade stops.
- `Blocks.Env.GenerateUid` requires that some draw yields a free token. The
  source's do-while never terminates otherwise.
- Components are named by their token inside props and assets. They are not
  referenced as objects.
- Aliasing of DOM nodes is not modelled:
  - An element asset is copied where the source moves it out of its
    old parent.
  - The fragment kept as `element` keeps its nodes, where appending it to
    the document empties it.
- The `instanceof HTMLElement` checks on logged listeners and in the
  selector walk always hold in the model.
- Attribute names are assumed unique within an element, as the DOM keeps
  them. Nothing in the model enforces it on render or renderer output. With
  a repeated name, `GetAttr` and `Tagged` read the first occurrence while
  the walk steps every index.
- Element namespaces. The model walks text directly inside any element but
  SCRIPT. The `instanceof HTMLElement` test at `src/modules/Block.ts:226`
  also skips text inside SVG or MathML elements, which the model does not
  distinguish.
- Node identity across builds. An element's id comes from the render
  output, so two builds of one component (its placeholder used twice) give
  nodes with equal ids. In a browser these are distinct nodes: the second
  build's `preparing` detaches the listeners on the first copy, and the walk
  attaches new ones to the second copy only. In the model the listener table
  holds the same triple again, so the first copy still counts as listening,
  and detaching either copy's log removes the triple for both.
- FireUpdated: the listener state after the re-render is stated exactly, as
  `PartsL` of `[this]`. `Listeners.UpdatedL` proves that the old log is
  emptied and its listeners leave the table before the walks attach new
  ones. It is not stated in closed form that the new log holds exactly the
  listeners the latest render declares. A component built during the walk
  can reach this one again through its own `preparing` cascade, and the
  model leaves that case to unfolding `WalkL`.
- TraverseChildren, TraverseElement and Build: the listener state they leave
  is stated exactly, as `WalkL` and `BuildL`. Only the static forest
  (`Listeners.WalkStaticL`) has a closed form; for a walk that builds
  nested components, which listeners remain follows by unfolding `WalkL`.
- TraverseChildren: its result is exactly `WalkF` of the forest. Below the
  top level, `Walks.WalkKeepsElements` states that every element is kept
  with its identity, tag and resolved attributes, but not its position
  among the walked nodes.
- `Input.autoResize` (computed styles and pixel heights). The
  `setAttribute('value', …)` mirror in `onInput`.
- The deferred (`setTimeout`) toggle after `submit`, and
  `event.preventDefault()`.
- `Inputs.Receives`: a password field whose name is not a string is treated
  as not a repeat field. The source would throw there.
- `Inputs.Input.Validate` requires that a field which announces its value is
  not itself subscribed. The subscription rule (type password, name ending
  in `2`) excludes it.
