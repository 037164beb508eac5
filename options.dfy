/**
 * The options registry (js/options.ts): components register their option
 * sections with a handler, values persist in the preference store as
 * strings, and each read or write is coerced to the option's type.
 *
 * The preference store (`Prefs`, backed by the browser's local storage) is
 * a map from names to strings. A handler is known by a number; the calls
 * made to handlers' `setOption` are kept, in order, in a log. A JavaScript
 * number is carried as the text `String(n)` gives for it, so `Number` and
 * `String` are each other's inverse on the values modelled.
 */
module Options {
  import opened Optional

  /** `BOOLEAN_OPTION`, `SELECT_OPTION`, `SLIDER_OPTION`. */
  datatype OptionKind = BooleanKind | SelectKind | SliderKind

  /** `string | boolean | number`. */
  datatype Value = Str(s: string) | Bool(b: bool) | Num(text: string)

  /** An `Option`: its name, label (`caption`), kind and default value. */
  datatype OptionDef = OptionDef(name: string, caption: string, kind: OptionKind, defaultVal: Value)

  datatype Section = Section(name: string, options: seq<OptionDef>)

  /** One call `handler.setOption(name, value)`. */
  datatype Call = Call(handler: nat, name: string, value: Value)

  /** `String(value)`. */
  function Stringify(v: Value): (s: string)
    ensures v.Str? ==> s == v.s
    ensures v.Bool? ==> (s == "true" <==> v.b)
  {
    match v
    case Str(s) => s
    case Bool(b) => if b then "true" else "false"
    case Num(text) => text
  }

  /** `Boolean(value)`: the empty string, 0 and NaN are false. */
  function Truthy(v: Value): (b: bool)
    ensures v.Bool? ==> b == v.b
  {
    match v
    case Str(s) => s != ""
    case Bool(b) => b
    case Num(text) => text != "0" && text != "NaN"
  }

  /** `Number(value)`: false and true are 0 and 1. */
  function Numeric(v: Value): (n: Value)
    ensures n.Num? && (v.Num? ==> n == v)
  {
    match v
    case Str(s) => Num(s)
    case Bool(b) => Num(if b then "1" else "0")
    case Num(text) => Num(text)
  }

  /** `readPref(name, defaultValue)`. */
  function ReadPref(prefs: map<string, string>, name: string, defaultValue: string): (s: string)
    ensures name !in prefs ==> s == defaultValue
  {
    if name in prefs then prefs[name] else defaultValue
  }

  /** The value `getOption` reads for a registered option: the stored
      string, or the default's when nothing is stored, as the option's kind. */
  function ReadOption(prefs: map<string, string>, opt: OptionDef): (v: Value)
    ensures opt.kind == BooleanKind ==> v.Bool?
    ensures opt.kind == SliderKind ==> v.Num?
    ensures opt.kind == SelectKind ==> v.Str?
    ensures opt.name !in prefs ==> (opt.kind == BooleanKind ==> v.b == (Stringify(opt.defaultVal) == "true"))
  {
    var prefVal := ReadPref(prefs, opt.name, Stringify(opt.defaultVal));
    match opt.kind
    case BooleanKind => Bool(prefVal == "true")
    case SliderKind => Num(prefVal)
    case SelectKind => Str(prefVal)
  }

  /** The value `setOption` hands to the handler: the new value as the
      option's kind. */
  function Coerce(kind: OptionKind, v: Value): (c: Value)
    ensures kind == BooleanKind ==> c == Bool(Truthy(v))
    ensures kind == SliderKind ==> c == Numeric(v)
    ensures kind == SelectKind ==> c == Str(Stringify(v))
  {
    match kind
    case BooleanKind => Bool(Truthy(v))
    case SliderKind => Numeric(v)
    case SelectKind => Str(Stringify(v))
  }

  /** A value of the option's own kind. */
  predicate OfKind(kind: OptionKind, v: Value) {
    match kind
    case BooleanKind => v.Bool?
    case SliderKind => v.Num?
    case SelectKind => v.Str?
  }

  /** A stored value reads back as what the handler was told: after
      `setOption(name, v)` with v of the option's kind, `getOption(name)`
      gives the value the handler received, and that is v itself. */
  lemma SetThenRead(prefs: map<string, string>, opt: OptionDef, v: Value)
    requires OfKind(opt.kind, v)
    ensures ReadOption(prefs[opt.name := Stringify(v)], opt) == Coerce(opt.kind, v) == v
  {
  }

  /** The one exception to a faithful read-back: a string given to a
      boolean option. Any non-empty string tells the handler true, but only
      "true" reads back as true, so "false" is reported one way and stored
      the other. */
  lemma StringToBooleanOption(prefs: map<string, string>, opt: OptionDef)
    requires opt.kind == BooleanKind
    ensures Coerce(opt.kind, Str("false")) == Bool(true)
    ensures ReadOption(prefs[opt.name := Stringify(Str("false"))], opt) == Bool(false)
  {
  }

  /** All options of the sections, in order. */
  function Flatten(secs: seq<Section>): (opts: seq<OptionDef>)
    ensures |secs| == 0 ==> opts == []
  {
    if |secs| == 0 then [] else Flatten(secs[..|secs| - 1]) + secs[|secs| - 1].options
  }

  /** Every option of every section is in the flattened list. */
  lemma {:induction false} FlattenHas(secs: seq<Section>, i: int, j: int)
    requires 0 <= i < |secs| && 0 <= j < |secs[i].options|
    ensures secs[i].options[j] in Flatten(secs)
  {
    var last := |secs| - 1;
    if i < last {
      assert secs[..last][i] == secs[i];
      FlattenHas(secs[..last], i, j);
    } else {
      assert Flatten(secs) == Flatten(secs[..last]) + secs[i].options;
    }
  }

  /** `this.options[name] = option` for each option in turn. */
  function Register(m: map<string, OptionDef>, opts: seq<OptionDef>): map<string, OptionDef>
  {
    if |opts| == 0 then m
    else
      var o := opts[|opts| - 1];
      Register(m, opts[..|opts| - 1])[o.name := o]
  }

  /** Registration files every option's name and no other new name. */
  lemma {:induction false} RegisterKeys(m: map<string, OptionDef>, opts: seq<OptionDef>)
    ensures Register(m, opts).Keys == m.Keys + set o | o in opts :: o.name
  {
    if |opts| > 0 {
      var init, o := opts[..|opts| - 1], opts[|opts| - 1];
      RegisterKeys(m, init);
      assert opts == init + [o];
    }
  }

  /** Under a name, registration leaves the last option of that name: a
      later option replaces an earlier one. */
  lemma {:induction false} RegisterLastWins(m: map<string, OptionDef>, opts: seq<OptionDef>, k: int)
    requires 0 <= k < |opts| && forall l :: k < l < |opts| ==> opts[l].name != opts[k].name
    ensures opts[k].name in Register(m, opts) && Register(m, opts)[opts[k].name] == opts[k]
  {
    if k < |opts| - 1 {
      var init := opts[..|opts| - 1];
      RegisterLastWins(m, init, k);
    }
  }

  /** A name no option has keeps its earlier entry. */
  lemma {:induction false} RegisterKeeps(m: map<string, OptionDef>, opts: seq<OptionDef>, name: string)
    requires name in m && forall k :: 0 <= k < |opts| ==> opts[k].name != name
    ensures name in Register(m, opts) && Register(m, opts)[name] == m[name]
  {
    if |opts| > 0 {
      RegisterKeeps(m, opts[..|opts| - 1], name);
    }
  }

  /** Registration files every option under its own name. */
  lemma {:induction false} RegisterOwnNames(m: map<string, OptionDef>, opts: seq<OptionDef>)
    requires forall n :: n in m ==> m[n].name == n
    ensures forall n :: n in Register(m, opts) ==> Register(m, opts)[n].name == n
  {
    if |opts| > 0 {
      RegisterOwnNames(m, opts[..|opts| - 1]);
    }
  }

  /** `this.handlers[name] = handler` for each option in turn. */
  function Claim(h: map<string, nat>, opts: seq<OptionDef>, handler: nat): map<string, nat>
  {
    if |opts| == 0 then h
    else Claim(h, opts[..|opts| - 1], handler)[opts[|opts| - 1].name := handler]
  }

  /** Every option's name ends up with the registering handler; other names
      keep theirs. */
  lemma {:induction false} ClaimOwners(h: map<string, nat>, opts: seq<OptionDef>, handler: nat, name: string)
    ensures (exists k :: 0 <= k < |opts| && opts[k].name == name) ==>
      name in Claim(h, opts, handler) && Claim(h, opts, handler)[name] == handler
    ensures (forall k :: 0 <= k < |opts| ==> opts[k].name != name) ==>
      (name in Claim(h, opts, handler) <==> name in h) &&
      (name in h ==> Claim(h, opts, handler)[name] == h[name])
  {
    if |opts| > 0 {
      var init := opts[..|opts| - 1];
      ClaimOwners(h, init, handler, name);
      if exists k :: 0 <= k < |opts| && opts[k].name == name {
        if opts[|opts| - 1].name != name {
          var k :| 0 <= k < |opts| && opts[k].name == name;
          assert init[k].name == name;
        }
      }
    }
  }

  /** The call log after `addOptions` has told the handler each option's
      current value, in order. */
  function Pushed(log: seq<Call>, handler: nat, prefs: map<string, string>, opts: seq<OptionDef>): (r: seq<Call>)
  {
    if |opts| == 0 then log
    else
      var o := opts[|opts| - 1];
      Pushed(log, handler, prefs, opts[..|opts| - 1]) + [Call(handler, o.name, ReadOption(prefs, o))]
  }

  /** One new call per option. */
  lemma {:induction false} PushedLength(log: seq<Call>, handler: nat, prefs: map<string, string>, opts: seq<OptionDef>)
    ensures |Pushed(log, handler, prefs, opts)| == |log| + |opts|
  {
    if |opts| > 0 {
      PushedLength(log, handler, prefs, opts[..|opts| - 1]);
    }
  }

  /** The log keeps the earlier calls, and its k-th new call tells the
      handler the k-th option's value. */
  lemma {:induction false} PushedAt(log: seq<Call>, handler: nat, prefs: map<string, string>, opts: seq<OptionDef>, k: int)
    requires 0 <= k < |opts|
    ensures |Pushed(log, handler, prefs, opts)| == |log| + |opts|
    ensures Pushed(log, handler, prefs, opts)[..|log|] == log
    ensures Pushed(log, handler, prefs, opts)[|log| + k] == Call(handler, opts[k].name, ReadOption(prefs, opts[k]))
  {
    var init := opts[..|opts| - 1];
    PushedLength(log, handler, prefs, opts);
    PushedLength(log, handler, prefs, init);
    if k < |opts| - 1 {
      PushedAt(log, handler, prefs, init, k);
    } else if |init| > 0 {
      PushedAt(log, handler, prefs, init, 0);
    }
  }

  /** One more section: its options follow those of the earlier ones. */
  lemma FlattenStep(secs: seq<Section>, i: int)
    requires 0 <= i < |secs|
    ensures secs[..i + 1] == secs[..i] + [secs[i]]
    ensures Flatten(secs[..i + 1]) == Flatten(secs[..i]) + secs[i].options
  {
    assert secs[..i + 1][..i] == secs[..i];
  }

  /** One more option of a section. */
  lemma OptionStep(opts: seq<OptionDef>, j: int)
    requires 0 <= j < |opts|
    ensures opts[..j + 1] == opts[..j] + [opts[j]]
  {
  }

  /** One more option, for each of the three records `addOptions` keeps. */
  lemma RegisterStep(m: map<string, OptionDef>, opts: seq<OptionDef>, o: OptionDef)
    ensures Register(m, opts + [o]) == Register(m, opts)[o.name := o]
  {
    assert (opts + [o])[..|opts|] == opts;
  }

  lemma ClaimStep(h: map<string, nat>, opts: seq<OptionDef>, o: OptionDef, handler: nat)
    ensures Claim(h, opts + [o], handler) == Claim(h, opts, handler)[o.name := handler]
  {
    assert (opts + [o])[..|opts|] == opts;
  }

  lemma PushedStep(log: seq<Call>, handler: nat, prefs: map<string, string>, opts: seq<OptionDef>, o: OptionDef)
    ensures Pushed(log, handler, prefs, opts + [o]) == Pushed(log, handler, prefs, opts) + [Call(handler, o.name, ReadOption(prefs, o))]
  {
    assert (opts + [o])[..|opts|] == opts;
  }

  /** Registering two lists in turn is registering their concatenation. */
  lemma {:induction false} RegisterAppend(m: map<string, OptionDef>, a: seq<OptionDef>, b: seq<OptionDef>)
    ensures Register(m, a + b) == Register(Register(m, a), b)
  {
    if |b| > 0 {
      var init, o := b[..|b| - 1], b[|b| - 1];
      RegisterAppend(m, a, init);
      assert (a + b)[..|a + b| - 1] == a + init;
    } else {
      assert a + b == a;
    }
  }

  lemma {:induction false} ClaimAppend(h: map<string, nat>, a: seq<OptionDef>, b: seq<OptionDef>, handler: nat)
    ensures Claim(h, a + b, handler) == Claim(Claim(h, a, handler), b, handler)
  {
    if |b| > 0 {
      var init := b[..|b| - 1];
      ClaimAppend(h, a, init, handler);
      assert (a + b)[..|a + b| - 1] == a + init;
    } else {
      assert a + b == a;
    }
  }

  lemma {:induction false} PushedAppend(log: seq<Call>, handler: nat, prefs: map<string, string>, a: seq<OptionDef>, b: seq<OptionDef>)
    ensures Pushed(log, handler, prefs, a + b) == Pushed(Pushed(log, handler, prefs, a), handler, prefs, b)
  {
    if |b| > 0 {
      var init := b[..|b| - 1];
      PushedAppend(log, handler, prefs, a, init);
      assert (a + b)[..|a + b| - 1] == a + init;
    } else {
      assert a + b == a;
    }
  }

  class Options {
    var prefs: map<string, string>
    var options: map<string, OptionDef>
    var handlers: map<string, nat>
    var sections: seq<Section>
    /** The `setOption` calls made on handlers so far. */
    var calls: seq<Call>

    /** Every registered option has a handler and is filed under its own
        name. */
    predicate Valid()
      reads this
    {
      forall n :: n in options ==> n in handlers && options[n].name == n
    }

    constructor (prefs: map<string, string>)
      ensures Valid() && this.prefs == prefs
      ensures options == map[] && handlers == map[] && sections == [] && calls == []
    {
      this.prefs := prefs;
      options, handlers, sections, calls := map[], map[], [], [];
    }

    /** `getOption`: undefined for an unregistered name, else the option's
        stored value as its kind. */
    function GetOption(name: string): (v: Option<Value>)
      reads this
      ensures v.None? <==> name !in options
      ensures v.Some? ==> v.value == ReadOption(prefs, options[name])
    {
      if name in options then Some(ReadOption(prefs, options[name])) else None
    }

    /** `addOptions`: file every option of the handler's sections under its
        name with the handler, tell the handler each option's current value,
        and append the sections. */
    method AddOptions(handler: nat, secs: seq<Section>)
      requires Valid()
      modifies this`options, this`handlers, this`sections, this`calls
      ensures Valid()
      ensures options == Register(old(options), Flatten(secs))
      ensures handlers == Claim(old(handlers), Flatten(secs), handler)
      ensures sections == old(sections) + secs
      ensures calls == Pushed(old(calls), handler, prefs, Flatten(secs))
    {
      var i := 0;
      while i < |secs|
        invariant 0 <= i <= |secs| && Valid()
        invariant options == Register(old(options), Flatten(secs[..i]))
        invariant handlers == Claim(old(handlers), Flatten(secs[..i]), handler)
        invariant sections == old(sections) + secs[..i]
        invariant calls == Pushed(old(calls), handler, prefs, Flatten(secs[..i]))
      {
        var section := secs[i];
        ghost var seen := Flatten(secs[..i]);
        FlattenStep(secs, i);
        RegisterAppend(old(options), seen, section.options);
        ClaimAppend(old(handlers), seen, section.options, handler);
        PushedAppend(old(calls), handler, prefs, seen, section.options);
        AddSection(handler, section);
        sections := sections + [section];
        i := i + 1;
      }
      assert secs[..i] == secs;
    }

    /** The body of `addOptions`' outer loop, less the final `push`: the
        options of one section in turn. */
    method AddSection(handler: nat, section: Section)
      requires Valid()
      modifies this`options, this`handlers, this`calls
      ensures Valid()
      ensures options == Register(old(options), section.options)
      ensures handlers == Claim(old(handlers), section.options, handler)
      ensures calls == Pushed(old(calls), handler, prefs, section.options)
    {
      var j := 0;
      while j < |section.options|
        invariant 0 <= j <= |section.options| && Valid()
        invariant options == Register(old(options), section.options[..j])
        invariant handlers == Claim(old(handlers), section.options[..j], handler)
        invariant calls == Pushed(old(calls), handler, prefs, section.options[..j])
      {
        var option := section.options[j];
        ghost var before := section.options[..j];
        RegisterStep(old(options), before, option);
        ClaimStep(old(handlers), before, option, handler);
        PushedStep(old(calls), handler, prefs, before, option);
        OptionStep(section.options, j);
        AddOption(handler, option);
        j := j + 1;
      }
      assert section.options[..j] == section.options;
    }

    /** The body of `addOptions`' inner loop: file one option and tell its
        handler the option's current value. */
    method AddOption(handler: nat, option: OptionDef)
      requires Valid()
      modifies this`options, this`handlers, this`calls
      ensures Valid()
      ensures options == old(options)[option.name := option]
      ensures handlers == old(handlers)[option.name := handler]
      ensures calls == old(calls) + [Call(handler, option.name, ReadOption(prefs, option))]
    {
      var name := option.name;
      handlers := handlers[name := handler];
      options := options[name := option];
      var value := GetOption(name);
      if value.Some? {
        calls := calls + [Call(handler, name, value.value)];
      } else {
        assert false;
      }
    }

    /** `setOption`: for a registered name, store `String(value)` and call
        the option's handler once with the value as the option's kind;
        otherwise nothing. */
    method SetOption(name: string, value: Value)
      requires Valid()
      modifies this`prefs, this`calls
      ensures Valid()
      ensures name !in old(options) ==> prefs == old(prefs) && calls == old(calls)
      ensures name in old(options) ==>
        prefs == old(prefs)[name := Stringify(value)] &&
        calls == old(calls) + [Call(handlers[name], name, Coerce(options[name].kind, value))]
    {
      if name in options {
        var handler := handlers[name];
        var option := options[name];
        prefs := prefs[name := Stringify(value)];
        calls := calls + [Call(handler, name, Coerce(option.kind, value))];
      }
    }
  }
}
