/**
 * `expandReducer` of app/reducers/expandReducer.ts: the expand/collapse
 * flags of the tree, a record from block id to boolean.
 */
module ExpandReducer {

  /** `ExpandAction`, plus any action object with another `type`. */
  datatype ExpandAction =
    | Toggle(id: string)
    | ReplaceAll(flags: map<string, bool>)
    | Unrecognised(tag: string)

  /**
   * The properties a plain object inherits from `Object.prototype`
   * (sections 20.1.3 and B.2.2 of ECMA-262). Each is a function or, for
   * `__proto__`, an object, so reading one gives a truthy value.
   */
  const InheritedKeys: set<string> := {
    "constructor", "hasOwnProperty", "isPrototypeOf", "propertyIsEnumerable",
    "toLocaleString", "toString", "valueOf", "__proto__",
    "__defineGetter__", "__defineSetter__", "__lookupGetter__", "__lookupSetter__"
  }

  /**
   * `state[id]` is truthy, where `state` is a plain object: an own key
   * reads its flag, and a missing key reads through to `Object.prototype`.
   */
  predicate IsExpanded(state: map<string, bool>, id: string) {
    if id in state then state[id] else id in InheritedKeys
  }

  /** `expandReducer(state, action)`. */
  function Reduce(state: map<string, bool>, action: ExpandAction): (r: map<string, bool>)
    ensures action.Toggle? ==>
      && r.Keys == state.Keys + {action.id}
      && r[action.id] == !IsExpanded(state, action.id)
      && (forall k :: k in state && k != action.id ==> r[k] == state[k])
    ensures action.ReplaceAll? ==> r == action.flags
    ensures action.Unrecognised? ==> r == state
  {
    match action
    case Toggle(id) => state[id := !IsExpanded(state, id)]
    case ReplaceAll(flags) => flags
    case Unrecognised(_) => state
  }

  /**
   * Toggling a collapsed id expands it and toggling an expanded one
   * collapses it; a missing id reads through to `Object.prototype`.
   */
  lemma ToggleFlips(state: map<string, bool>, id: string)
    ensures IsExpanded(Reduce(state, Toggle(id)), id) <==> !IsExpanded(state, id)
  {
  }

  /** A missing id that names no inherited member reads as collapsed, so toggling stores `true`. */
  lemma ToggleAbsent(state: map<string, bool>, id: string)
    requires id !in state && id !in InheritedKeys
    ensures Reduce(state, Toggle(id)) == state[id := true]
  {
  }

  /** `!{}["constructor"]` is `false`: toggling an inherited name on an empty record stores `false`. */
  lemma ToggleInheritedName()
    ensures Reduce(map[], Toggle("constructor")) == map["constructor" := false]
  {
  }

  /**
   * Toggling the same id twice leaves it as truthy as before and every
   * other key as it was; a key that was present comes back unchanged.
   */
  lemma ToggleTwice(state: map<string, bool>, id: string)
    ensures var r := Reduce(Reduce(state, Toggle(id)), Toggle(id));
      && r[id] == IsExpanded(state, id)
      && r.Keys == state.Keys + {id}
      && (forall k :: k in state && k != id ==> r[k] == state[k])
      && (id in state ==> r == state)
  {
    var once := Reduce(state, Toggle(id));
    var r := Reduce(once, Toggle(id));
    if id in state {
      assert r.Keys == state.Keys;
      assert forall k :: k in state ==> r[k] == state[k];
    }
  }
}
