/** What every JavaScript object answers to without having been given it. */
module Prototypes {

  /** The names `Object.prototype` has a value for. */
  const INHERITED_NAMES := {
    "constructor", "toString", "toLocaleString", "valueOf", "hasOwnProperty", "isPrototypeOf",
    "propertyIsEnumerable", "__proto__", "__defineGetter__", "__defineSetter__", "__lookupGetter__",
    "__lookupSetter__"
  }

  lemma InheritedNamesAre(name: string)
    ensures name in INHERITED_NAMES <==>
      || name == "constructor" || name == "toString" || name == "toLocaleString" || name == "valueOf"
      || name == "hasOwnProperty" || name == "isPrototypeOf" || name == "propertyIsEnumerable" || name == "__proto__"
      || name == "__defineGetter__" || name == "__defineSetter__"
      || name == "__lookupGetter__" || name == "__lookupSetter__"
  {}
}
