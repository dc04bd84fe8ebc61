/** The implicit string conversions the validators run into: the `in`
    operator turns its left operand into a property key, and `RegExp.test`
    turns its argument into a string, both through `String(value)`. */
module JsCoercion {
  import opened JsValue
  import opened Decimal

  /** What a conversion yields: a value, or a thrown `TypeError`. */
  datatype Outcome<T> = Returns(value: T) | Throws

  /** The own key that makes converting a parsed object throw. */
  const ToStringKey := "toString"

  /** `String(v)`. An array prints its elements joined by commas, with
      `null` elements printing as nothing; a plain object prints as
      `[object Object]`. A parsed object with its own `toString` key
      throws: that value is never callable, so the conversion falls back to
      the inherited `valueOf`, which returns the object itself. */
  function ToJsString(v: Json): (r: Outcome<string>)
    ensures v.JStr? ==> r == Returns(v.s)
    ensures v.JObj? ==> (r.Throws? <==> ToStringKey in v.fields)
    ensures v.JArr? ==>
      (r.Throws? <==> exists i :: 0 <= i < |v.items| && ElementText(v.items[i]).Throws?)
    decreases v, 0
  {
    match v
    case JNull => Returns("null")
    case JBool(b) => Returns(if b then "true" else "false")
    case JNum(n) => Returns(IntToString(n))
    case JStr(s) => Returns(s)
    case JArr(items) =>
      var parts := seq(|items|, i requires 0 <= i < |items| => ElementText(items[i]));
      assert forall i :: 0 <= i < |items| ==> parts[i] == ElementText(items[i]);
      Join(parts)
    case JObj(fields) => if ToStringKey in fields then Throws else Returns("[object Object]")
  }

  /** How `Array.prototype.join` prints one element. */
  function ElementText(e: Json): Outcome<string>
    decreases e, 1
  {
    if e.JNull? then Returns("") else ToJsString(e)
  }

  /** The parts separated by commas; the first part that throws makes the
      whole join throw. */
  function Join(parts: seq<Outcome<string>>): (r: Outcome<string>)
    ensures r.Throws? <==> exists i :: 0 <= i < |parts| && parts[i].Throws?
    ensures |parts| == 1 ==> r == parts[0]
  {
    if |parts| == 0 then Returns("")
    else
      var init, last := Join(parts[..|parts| - 1]), parts[|parts| - 1];
      assert forall i :: 0 <= i < |parts| - 1 ==> parts[..|parts| - 1][i] == parts[i];
      if init.Throws? || last.Throws? then Throws
      else if |parts| == 1 then last
      else Returns(init.value + "," + last.value)
  }

  /** The names every plain object inherits from `Object.prototype`, which
      `name in obj` therefore reports as present. */
  const ObjectPrototypeKeys: set<string> := {
    "constructor", "hasOwnProperty", "isPrototypeOf", "propertyIsEnumerable",
    "toLocaleString", "toString", "valueOf", "__proto__",
    "__defineGetter__", "__defineSetter__", "__lookupGetter__", "__lookupSetter__"
  }

  /** An array holding one non-null value converts to what that value
      converts to, a throw included. */
  lemma SingletonArrayText(x: Json)
    requires !x.JNull?
    ensures ToJsString(JArr([x])) == ToJsString(x)
  {
    var parts := seq(1, i requires 0 <= i < 1 => ElementText([x][i]));
    assert parts == [ToJsString(x)];
  }

  /** An object with its own `toString` key cannot be converted, and neither
      can an array holding it; without that key it prints as
      `[object Object]`. */
  lemma OwnToStringThrows(fields: map<string, Json>)
    ensures ToJsString(JObj(fields)).Throws? <==> ToStringKey in fields
    ensures ToJsString(JArr([JObj(fields)])).Throws? <==> ToStringKey in fields
    ensures ToStringKey !in fields ==> ToJsString(JObj(fields)) == Returns("[object Object]")
  {
    SingletonArrayText(JObj(fields));
  }
}
