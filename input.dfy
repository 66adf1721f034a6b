/** The form field component: its initial value, the rule deciding when
    focus validates, the placeholder shown in an empty field, the value
    validation sees, the pairing of a password field with its repeat field,
    and the error bookkeeping after validation. The message lookup
    (`getValidationMessage`) is a parameter: its source is not part of this
    model. */
module Inputs {
  import opened Values
  import opened Dom
  import opened Blocks

  /** The name of a repeat field ends with this character. */
  const RepeatSuffix: char := '2'

  // ---------------------------------------------------------------------
  // Pure rules

  /** The `value` prop the constructor patches in: the given value when it
      is truthy, else the placeholder when that is truthy, else the empty
      string. */
  function InitialValue(p: Props): (v: Value)
    ensures Truthy(Get(p, "value")) ==> v == Get(p, "value")
    ensures !Truthy(Get(p, "value")) && Truthy(Get(p, "placeholder")) ==> v == Get(p, "placeholder")
    ensures !Truthy(Get(p, "value")) && !Truthy(Get(p, "placeholder")) ==> v == VStr("")
  {
    Or(Get(p, "value"), Or(Get(p, "placeholder"), VStr("")))
  }

  /** A field given a string value and a string placeholder starts with a
      string value: never `undefined`, never some other kind of value. */
  lemma InitialValueIsString(p: Props)
    requires Get(p, "value").VStr? || Get(p, "value").VUndefined?
    requires Get(p, "placeholder").VStr? || Get(p, "placeholder").VUndefined?
    ensures InitialValue(p).VStr?
    ensures InitialValue(p).s == "" ==> !Truthy(Get(p, "value")) && !Truthy(Get(p, "placeholder"))
  {
  }

  /** Focus validates only a field whose value is not the empty string and
      which either has no (truthy) placeholder or a placeholder different
      from the value. */
  predicate FocusValidates(p: Props): (r: bool)
    ensures Get(p, "value") == VStr("") ==> !r
    ensures Truthy(Get(p, "placeholder")) && Get(p, "placeholder") == Get(p, "value") ==> !r
    ensures Get(p, "value") != VStr("") && !Truthy(Get(p, "placeholder")) ==> r
    ensures r && Get(p, "value").VStr? ==> Get(p, "value").s != ""
  {
    Get(p, "value") != VStr("") &&
    (!Truthy(Get(p, "placeholder")) || Get(p, "placeholder") != Get(p, "value"))
  }

  /** The value validation sees: empty when a placeholder is defined and
      equals the value, the value itself when it is a string, and empty
      otherwise. */
  function ActualValue(p: Props): (s: string)
    ensures !Get(p, "value").VStr? ==> s == ""
    ensures Get(p, "value").VStr? && !Get(p, "placeholder").VUndefined? && Get(p, "placeholder") == Get(p, "value") ==> s == ""
    ensures Get(p, "value").VStr? && (Get(p, "placeholder").VUndefined? || Get(p, "placeholder") != Get(p, "value")) ==>
      s == Get(p, "value").s
  {
    var v := Get(p, "value");
    if v.VStr? then
      var ph := Get(p, "placeholder");
      if !ph.VUndefined? && ph == v then "" else v.s
    else ""
  }

  /** When focus validates a string value, validation sees that value, and
      it is not empty: focus never validates a field that only shows its
      placeholder. */
  lemma {:induction false} FocusSeesRealValue(p: Props)
    requires FocusValidates(p) && Get(p, "value").VStr?
    ensures ActualValue(p) == Get(p, "value").s && ActualValue(p) != ""
  {
    var v, ph := Get(p, "value"), Get(p, "placeholder");
    assert v.s != "";
    assert ph == v ==> Truthy(ph);
  }

  /** The props the message lookup receives: the component's props with the
      value replaced by the actual value. */
  function ValidationProps(p: Props): (q: Props)
    ensures q.Keys == p.Keys + {"value"}
    ensures Get(q, "value") == VStr(ActualValue(p))
    ensures forall k :: k != "value" ==> Get(q, k) == Get(p, k)
  {
    p["value" := VStr(ActualValue(p))]
  }

  /** `name.slice(-1) === '2'`. */
  predicate EndsInRepeat(name: string) {
    |name| >= 1 && name[|name| - 1] == RepeatSuffix
  }

  /** The field announces its value to the repeat field when validated: a
      password field whose name is a string not ending in the suffix. */
  predicate Broadcasts(p: Props): (r: bool)
    ensures r ==> Get(p, "type") == VStr("password") && Get(p, "name").VStr?
    ensures Get(p, "type") == VStr("password") && Get(p, "name") == VStr("") ==> r
    ensures r && Get(p, "name").s != "" ==> Get(p, "name").s[|Get(p, "name").s| - 1] != RepeatSuffix
  {
    Get(p, "type") == VStr("password") && Get(p, "name").VStr? && !EndsInRepeat(Get(p, "name").s)
  }

  /** The field listens for the announced password: a password field whose
      name ends in the suffix. */
  predicate Receives(p: Props): (r: bool)
    ensures r ==> Get(p, "type") == VStr("password") && Get(p, "name").VStr? && Get(p, "name").s != ""
    ensures r ==> Get(p, "name").s[|Get(p, "name").s| - 1] == RepeatSuffix
    ensures r ==> !Broadcasts(p)
  {
    Get(p, "type") == VStr("password") && Get(p, "name").VStr? && EndsInRepeat(Get(p, "name").s)
  }

  /** Every password field with a string name is exactly one of the pair: it
      either announces or listens, never both. */
  lemma PairPartition(p: Props)
    ensures !(Broadcasts(p) && Receives(p))
    ensures Get(p, "type") == VStr("password") && Get(p, "name").VStr? ==> Broadcasts(p) || Receives(p)
    ensures Broadcasts(p) || Receives(p) ==> Get(p, "type") == VStr("password")
  {
  }

  // ---------------------------------------------------------------------
  // The placeholder toggle

  /** The value a field holds after the toggle for event type `etype`, with
      placeholder prop `ph`: on blur an empty field shows the placeholder;
      on focus a field showing the placeholder is emptied; anything else,
      including a placeholder that is not a string or an event without a
      type, leaves the value. */
  function Toggled(ph: Value, etype: string, v: string): (r: string)
    ensures !ph.VStr? || etype == "" ==> r == v
    ensures r == v || (etype == "blur" && v == "" && r == ph.s) || (etype == "focus" && ph.VStr? && v == ph.s && r == "")
  {
    if ph.VStr? && etype != "" then
      if etype == "blur" && v == "" then ph.s
      else if etype == "focus" && v == ph.s then ""
      else v
    else v
  }

  /** Focus then blur brings back the placeholder a field showed, and blur
      then focus empties a field again. */
  lemma TogglePairRoundTrip(ph: string)
    ensures Toggled(VStr(ph), "blur", Toggled(VStr(ph), "focus", ph)) == ph
    ensures Toggled(VStr(ph), "focus", Toggled(VStr(ph), "blur", "")) == ""
  {
  }

  /** The toggle for one event type is idempotent. */
  lemma ToggleIdempotent(ph: Value, etype: string, v: string)
    ensures Toggled(ph, etype, Toggled(ph, etype, v)) == Toggled(ph, etype, v)
  {
  }

  /** After focus a field does not show a non-empty placeholder; after blur
      a field with a non-empty placeholder is not empty. */
  lemma ToggleOutcome(ph: string, v: string)
    requires ph != ""
    ensures Toggled(VStr(ph), "focus", v) != ph
    ensures Toggled(VStr(ph), "blur", v) != ""
  {
  }

  // ---------------------------------------------------------------------
  // Browser objects the field works with

  /** The input or textarea element an event targets. */
  class Field {
    var value: string

    constructor (value: string)
      ensures this.value == value
    {
      this.value := value;
    }
  }

  /** A DOM event: its type (empty when missing) and its target. */
  datatype UiEvent = UiEvent(etype: string, target: Field?)

  /** The form's submit state; `errorMsgs` is `None` when it is not an
      object. */
  class FormState {
    var errorMsgs: Option<map<string, string>>

    constructor (errorMsgs: Option<map<string, string>>)
      ensures this.errorMsgs == errorMsgs
    {
      this.errorMsgs := errorMsgs;
    }
  }

  /** The global `passwordFieldChange` channel: the components of the repeat
      fields subscribed to it. */
  class PasswordBus {
    var subscribers: seq<Block>

    constructor ()
      ensures subscribers == []
    {
      subscribers := [];
    }

    /** `fire('passwordFieldChange', v)`: every subscriber stores `v` as
        its `value2` prop (a plain assignment: nothing is re-rendered). */
    method Broadcast(v: Value)
      modifies subscribers`props
      ensures forall b :: b in subscribers ==> b.props == old(b.props)["value2" := v]
    {
      for k := 0 to |subscribers|
        invariant forall b :: b in subscribers[..k] ==> b.props == old(b.props)["value2" := v]
        invariant forall b :: b in subscribers && b !in subscribers[..k] ==> b.props == old(b.props)
      {
        var b := subscribers[k];
        b.props := b.props["value2" := v];
        assert subscribers[..k + 1] == subscribers[..k] + [b];
      }
      assert subscribers[..|subscribers|] == subscribers;
    }
  }

  // ---------------------------------------------------------------------
  // The component

  /** The `Block` part of the constructor: a fresh component registered
      under a new token, with the initial value and the three handlers
      patched into its props. */
  method NewBlock(env: Env, props: Props, render: Props -> seq<Node>, draws: seq<(nat, nat)>,
                  handlers: (FnId, FnId, FnId), fuel: nat) returns (b: Block)
    requires env.Valid() && DrawsInRange(draws) && HasFresh(draws, env.uids)
    modifies env`uids, env`issued, env`instances, env`body, env`listeners,
      env.Blocks()`fired, env.Blocks()`nativeEvents, env.Blocks()`element
    ensures env.Valid() && env.Has(b) && b !in old(env.Blocks())
    ensures Marked(old(env.body), b.uid) == [] ==> env.body == old(env.body)
    ensures var patch := Patch(props, handlers);
      (env.objIntersect(props, patch) ==> b.props == props) &&
      (!env.objIntersect(props, patch) ==> (b.props == props + patch &&
        Get(b.props, "value") == InitialValue(props) && Get(b.props, "onFocus") == VFn(handlers.0) &&
        Get(b.props, "onBlur") == VFn(handlers.1) && Get(b.props, "onInput") == VFn(handlers.2) &&
        forall k :: k !in patch ==> Get(b.props, k) == Get(props, k)))
  {
    b := new Block(env, props, render, draws);
    ghost var uids, issued, registered, body0 := env.uids, env.issued, env.instances, env.body;
    assert body0 == old(env.body);
    var patch := Patch(props, handlers);
    b.SetProps(env, patch, fuel);
    assert Marked(body0, b.uid) == [] ==> env.body == body0;
    assert env.uids == uids && env.issued == issued && env.instances == registered;
    assert !env.objIntersect(props, patch) ==> b.props == props + patch;
    assert !env.objIntersect(props, patch) ==> forall k :: k !in patch ==> Get(b.props, k) == Get(props, k);
  }

  /** A form field: a component together with the message lookup that
      validation consults. */
  class Input {
    const block: Block
    const getMsg: Props -> Option<string>

    /** Creates the component, patches in the initial value and the three
        handlers (`onFocus`, `onBlur`, `onInput`, given by their function
        identities), and subscribes a repeat password field to the
        password channel. */
    constructor (env: Env, props: Props, render: Props -> seq<Node>, draws: seq<(nat, nat)>,
                 getMsg: Props -> Option<string>, handlers: (FnId, FnId, FnId), bus: PasswordBus, fuel: nat)
      requires env.Valid() && DrawsInRange(draws) && HasFresh(draws, env.uids)
      modifies env`uids, env`issued, env`instances, env`body, env`listeners,
        env.Blocks()`fired, env.Blocks()`nativeEvents, env.Blocks()`element, bus`subscribers
      ensures env.Valid() && env.Has(block) && block !in old(env.Blocks())
      ensures Marked(old(env.body), block.uid) == [] ==> env.body == old(env.body)
      ensures this.getMsg == getMsg
      ensures var patch := Patch(props, handlers);
        (env.objIntersect(props, patch) ==> block.props == props) &&
        (!env.objIntersect(props, patch) ==> (block.props == props + patch &&
          Get(block.props, "value") == InitialValue(props) && Get(block.props, "onFocus") == VFn(handlers.0) &&
          Get(block.props, "onBlur") == VFn(handlers.1) && Get(block.props, "onInput") == VFn(handlers.2) &&
          forall k :: k !in patch ==> Get(block.props, k) == Get(props, k)))
      ensures bus.subscribers == old(bus.subscribers) + (if Receives(props) then [block] else [])
    {
      var b := NewBlock(env, props, render, draws, handlers, fuel);
      if Receives(props) {
        bus.subscribers := bus.subscribers + [b];
      }
      block := b;
      this.getMsg := getMsg;
    }

    /** `togglePlaceholder`: the target takes the toggled value when the
        event has a target. */
    method TogglePlaceholder(ev: UiEvent)
      modifies ev.target
      ensures ev.target != null ==>
        ev.target.value == Toggled(Get(block.props, "placeholder"), ev.etype, old(ev.target.value))
    {
      var ph := Get(block.props, "placeholder");
      if ph.VStr? && ev.etype != "" && ev.target != null {
        var target := ev.target;
        if ev.etype == "blur" && target.value == "" {
          target.value := ph.s;
        } else if ev.etype == "focus" && target.value == ph.s {
          target.value := "";
        }
      }
    }

    /** `validate`: a password field announces its value; the message for
        the actual value is looked up; a message (with a string name) is
        stored as the `error` prop and, when the form state has an
        `errorMsgs` object, under the field's name; without a message a
        present error is cleared to `null`. */
    method Validate(env: Env, ev: UiEvent, state: FormState?, bus: PasswordBus, fuel: nat)
      requires env.Valid() && env.Has(block)
      requires Broadcasts(block.props) ==> block !in bus.subscribers
      modifies env`body, env`listeners, env.Blocks()`fired, env.Blocks()`nativeEvents, env.Blocks()`element
      modifies block`props, bus.subscribers`props, state
      ensures Broadcasts(old(block.props)) ==>
        forall b :: b in bus.subscribers ==> b.props == old(b.props)["value2" := Get(old(block.props), "value")]
      ensures !Broadcasts(old(block.props)) ==>
        forall b :: b in bus.subscribers && b != block ==> b.props == old(b.props)
      ensures var p := old(block.props);
        var patch := ErrorPatch(p, getMsg(ValidationProps(p)));
        block.props == if patch.Some? && !env.objIntersect(p, patch.value) then p + patch.value else p
      ensures state != null ==>
        state.errorMsgs == Recorded(old(block.props), getMsg(ValidationProps(old(block.props))), old(state.errorMsgs))
    {
      if Broadcasts(block.props) {
        bus.Broadcast(Get(block.props, "value"));
      }
      var msg := getMsg(ValidationProps(block.props));
      ReportMessage(env, msg, state, fuel);
    }

    /** The second half of `validate`: record the lookup's answer `msg`. */
    method ReportMessage(env: Env, msg: Option<string>, state: FormState?, fuel: nat)
      requires env.Valid() && env.Has(block)
      modifies env`body, env`listeners, env.Blocks()`fired, env.Blocks()`nativeEvents, env.Blocks()`element
      modifies block`props, state
      ensures var p := old(block.props);
        var patch := ErrorPatch(p, msg);
        block.props == if patch.Some? && !env.objIntersect(p, patch.value) then p + patch.value else p
      ensures state != null ==> state.errorMsgs == Recorded(old(block.props), msg, old(state.errorMsgs))
    {
      var p := block.props;
      if msg.Some? && msg.value != "" && Get(p, "name").VStr? {
        block.SetProps(env, map["error" := VStr(msg.value)], fuel);
        if state != null && state.errorMsgs.Some? {
          state.errorMsgs := Some(state.errorMsgs.value[Get(p, "name").s := msg.value]);
        }
      } else if Truthy(Get(p, "error")) {
        block.SetProps(env, map["error" := VNull], fuel);
      }
    }

    /** `onFocus`: validate first when focus validates, then toggle the
        placeholder. */
    method OnFocus(env: Env, ev: UiEvent, bus: PasswordBus, fuel: nat)
      requires env.Valid() && env.Has(block)
      requires Broadcasts(block.props) ==> block !in bus.subscribers
      modifies env`body, env`listeners, env.Blocks()`fired, env.Blocks()`nativeEvents, env.Blocks()`element
      modifies block`props, bus.subscribers`props, ev.target
      ensures !FocusValidates(old(block.props)) ==> (block.props == old(block.props) &&
        env.body == old(env.body) && forall b :: b in bus.subscribers ==> b.props == old(b.props))
      ensures FocusValidates(old(block.props)) && Broadcasts(old(block.props)) ==>
        forall b :: b in bus.subscribers ==> b.props == old(b.props)["value2" := Get(old(block.props), "value")]
      ensures FocusValidates(old(block.props)) && !Broadcasts(old(block.props)) ==>
        forall b :: b in bus.subscribers && b != block ==> b.props == old(b.props)
      ensures FocusValidates(old(block.props)) ==>
        var p := old(block.props);
        var patch := ErrorPatch(p, getMsg(ValidationProps(p)));
        block.props == if patch.Some? && !env.objIntersect(p, patch.value) then p + patch.value else p
      ensures ev.target != null ==>
        ev.target.value == Toggled(Get(old(block.props), "placeholder"), ev.etype, old(ev.target.value))
    {
      if FocusValidates(block.props) {
        Validate(env, ev, null, bus, fuel);
        ErrorPatchKeepsPlaceholder(old(block.props), getMsg(ValidationProps(old(block.props))));
      }
      TogglePlaceholder(ev);
    }

    /** `onBlur`: validate, then toggle the placeholder. */
    method OnBlur(env: Env, ev: UiEvent, bus: PasswordBus, fuel: nat)
      requires env.Valid() && env.Has(block)
      requires Broadcasts(block.props) ==> block !in bus.subscribers
      modifies env`body, env`listeners, env.Blocks()`fired, env.Blocks()`nativeEvents, env.Blocks()`element
      modifies block`props, bus.subscribers`props, ev.target
      ensures Broadcasts(old(block.props)) ==>
        forall b :: b in bus.subscribers ==> b.props == old(b.props)["value2" := Get(old(block.props), "value")]
      ensures !Broadcasts(old(block.props)) ==>
        forall b :: b in bus.subscribers && b != block ==> b.props == old(b.props)
      ensures var p := old(block.props);
        var patch := ErrorPatch(p, getMsg(ValidationProps(p)));
        block.props == if patch.Some? && !env.objIntersect(p, patch.value) then p + patch.value else p
      ensures ev.target != null ==>
        ev.target.value == Toggled(Get(old(block.props), "placeholder"), ev.etype, old(ev.target.value))
    {
      Validate(env, ev, null, bus, fuel);
      ErrorPatchKeepsPlaceholder(old(block.props), getMsg(ValidationProps(old(block.props))));
      TogglePlaceholder(ev);
    }

    /** `onInput`: the props take the field's current value (a plain
        assignment: nothing is re-rendered). */
    method OnInput(field: Field)
      modifies block`props
      ensures block.props == old(block.props)["value" := VStr(field.value)]
      ensures ActualValue(block.props) == if Get(block.props, "placeholder") == VStr(field.value) then "" else field.value
    {
      block.props := block.props["value" := VStr(field.value)];
    }

    /** The `submit` handler: validate with the form state (the deferred
        placeholder toggle is not part of this model). */
    method OnSubmit(env: Env, ev: UiEvent, state: FormState?, bus: PasswordBus, fuel: nat)
      requires env.Valid() && env.Has(block)
      requires Broadcasts(block.props) ==> block !in bus.subscribers
      modifies env`body, env`listeners, env.Blocks()`fired, env.Blocks()`nativeEvents, env.Blocks()`element
      modifies block`props, bus.subscribers`props, state
      ensures Broadcasts(old(block.props)) ==>
        forall b :: b in bus.subscribers ==> b.props == old(b.props)["value2" := Get(old(block.props), "value")]
      ensures !Broadcasts(old(block.props)) ==>
        forall b :: b in bus.subscribers && b != block ==> b.props == old(b.props)
      ensures var p := old(block.props);
        var patch := ErrorPatch(p, getMsg(ValidationProps(p)));
        block.props == if patch.Some? && !env.objIntersect(p, patch.value) then p + patch.value else p
      ensures state != null ==>
        state.errorMsgs == Recorded(old(block.props), getMsg(ValidationProps(old(block.props))), old(state.errorMsgs))
    {
      Validate(env, ev, state, bus, fuel);
    }
  }

  /** The message lookup answers with a truthy string. */
  predicate HasMessage(msg: Option<string>) {
    msg.Some? && msg.value != ""
  }

  /** The patch validation hands to `setProps` for the lookup's answer
      `msg`, if any: the message as the error when there is one and the
      name is a string; otherwise `null` when an error is present. */
  function ErrorPatch(p: Props, msg: Option<string>): (r: Option<Props>)
    ensures r.Some? ==> r.value.Keys == {"error"}
    ensures r.None? <==> !(HasMessage(msg) && Get(p, "name").VStr?) && !Truthy(Get(p, "error"))
  {
    if HasMessage(msg) && Get(p, "name").VStr? then Some(map["error" := VStr(msg.value)])
    else if Truthy(Get(p, "error")) then Some(map["error" := VNull])
    else None
  }

  /** When the patch is applied, the field shows an error afterwards exactly
      when the lookup produced a message (and the name is a string); nothing
      but `error` changes. */
  lemma ErrorReflectsMessage(p: Props, msg: Option<string>)
    ensures var patch := ErrorPatch(p, msg);
      var q := if patch.Some? then p + patch.value else p;
      (Truthy(Get(q, "error")) <==> HasMessage(msg) && Get(p, "name").VStr?) &&
      (forall k :: k != "error" ==> Get(q, k) == Get(p, k))
  {
  }

  /** Validation never touches the placeholder, the value or the name. */
  lemma ErrorPatchKeepsPlaceholder(p: Props, msg: Option<string>)
    ensures var patch := ErrorPatch(p, msg);
      var q := if patch.Some? then p + patch.value else p;
      Get(q, "placeholder") == Get(p, "placeholder") && Get(q, "value") == Get(p, "value") &&
      Get(q, "name") == Get(p, "name")
  {
  }

  /** The form state's `errorMsgs` after validation: the message recorded
      under the field's name when there is a message, the name is a string
      and `errorMsgs` is an object; unchanged otherwise. */
  function Recorded(p: Props, msg: Option<string>, msgs: Option<map<string, string>>): (r: Option<map<string, string>>)
    ensures r.Some? <==> msgs.Some?
    ensures r.Some? && HasMessage(msg) && Get(p, "name").VStr? ==>
      Get(p, "name").s in r.value && r.value[Get(p, "name").s] == msg.value &&
      r.value.Keys == msgs.value.Keys + {Get(p, "name").s} &&
      forall k :: k in msgs.value && k != Get(p, "name").s ==> r.value[k] == msgs.value[k]
    ensures !(HasMessage(msg) && Get(p, "name").VStr?) ==> r == msgs
  {
    if HasMessage(msg) && Get(p, "name").VStr? && msgs.Some? then
      Some(msgs.value[Get(p, "name").s := msg.value])
    else msgs
  }

  /** The patch the constructor applies: the initial value and the three
      handlers. */
  function Patch(props: Props, handlers: (FnId, FnId, FnId)): (patch: Props)
    ensures patch.Keys == {"value", "onFocus", "onBlur", "onInput"}
    ensures patch["value"] == InitialValue(props)
    ensures patch["onFocus"] == VFn(handlers.0) && patch["onBlur"] == VFn(handlers.1) &&
      patch["onInput"] == VFn(handlers.2)
  {
    map["value" := InitialValue(props), "onFocus" := VFn(handlers.0), "onBlur" := VFn(handlers.1),
        "onInput" := VFn(handlers.2)]
  }
}
