/** The `Input` pairs that the command layer hands to an action: a name and a
    value that is a string, a boolean or `undefined`. */
module CommandInput {
  import opened Wrappers
  import opened JsBuiltins

  datatype Value = Str(text: string) | Bool(flag: bool) | Undefined

  datatype Input = Input(name: string, value: Value)

  /** JavaScript truthiness of an input value: the empty string, `false` and
      `undefined` are falsy. */
  predicate Truthy(v: Value)
  {
    match v
    case Str(t) => t != ""
    case Bool(b) => b
    case Undefined => false
  }

  /** The callback `input => input.name === name`. */
  function Named(name: string): Input -> bool
  {
    (input: Input) => input.name == name
  }

  /** `inputs.find(input => input.name === name)`: the first input of that name. */
  function Lookup(inputs: seq<Input>, name: string): (r: Option<Input>)
    ensures r.Some? ==> r.value in inputs && r.value.name == name
    ensures r.Some? ==> exists i :: 0 <= i < |inputs| && inputs[i] == r.value
                                  && forall j :: 0 <= j < i ==> inputs[j].name != name
    ensures r.None? <==> forall j :: 0 <= j < |inputs| ==> inputs[j].name != name
  {
    var r := Find(inputs, Named(name));
    if r.Some? then
      var i := FindIndex(inputs, Named(name)).value;
      assert inputs[i] == r.value && forall j :: 0 <= j < i ==> !Named(name)(inputs[j]);
      r
    else
      r
  }

  /** After `push`, a lookup still finds an earlier input of that name; the
      pushed input is found only when there is none. */
  lemma LookupAfterPush(inputs: seq<Input>, input: Input, name: string)
    ensures Lookup(inputs + [input], name) ==
            if Lookup(inputs, name).Some? then Lookup(inputs, name)
            else if input.name == name then Some(input) else None
  {
    FindIndexAppend(inputs, input, Named(name));
  }
}
