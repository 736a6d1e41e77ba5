/** `injectConfig`: for each declared field carrying `@Value`, strip the `${`/`}`
    wrapper from the annotation text, look the result up in the store, and write
    the raw string into the field when the lookup finds something. Reflection is
    not modelled: an object is its field declarations, in the order
    `getDeclaredFields` returns them (declaration order on HotSpot), plus
    a map from field name to current value. */
module Binding {
  import opened Wrappers
  import opened Strings
  import opened ConfigStore
  import opened Coercion

  /** `value.replace("${", "").replace("}", "")`: every `${` is dropped in one
      left-to-right pass, then every `}`. The key never contains `}`. */
  function ExtractKey(annotation: string): (key: string)
    ensures '}' !in key
  {
    var unopened := Replace(annotation, "${", "");
    ReplaceRemovesChar(unopened, '}', "");
    assert "}" == ['}'];
    Replace(unopened, "}", "")
  }

  /** The wrapper round trip: wrapping any key that holds neither `${` nor `}` as
      `${key}` and extracting gives the key back. */
  lemma ExtractKeyOfWrapped(k: string)
    requires !Occurs(k, "${") && '}' !in k
    ensures ExtractKey("${" + k + "}") == k
  {
    var wrapped := "${" + k + "}";
    assert StartsWith(wrapped, "${") by { assert wrapped[..2] == "${"; }
    assert wrapped[2..] == k + "}";
    assert !Occurs(k + "}", "${") by {
      forall i | 0 <= i <= |k + "}"| ensures !OccursAt(k + "}", "${", i) {
        if i + 2 <= |k| {
          assert (k + "}")[i..i + 2] == k[i..i + 2];
          assert !OccursAt(k, "${", i);
        } else if i + 2 == |k| + 1 {
          assert (k + "}")[i..i + 2][1] == '}';
        }
      }
    }
    ReplaceWithoutOccurrence(k + "}", "${", "");
    assert Replace(wrapped, "${", "") == k + "}";
    assert "}" == ['}'];
    ReplaceCharConcat(k, "}", '}', "");
    assert !Occurs(k, "}") by {
      forall i | 0 <= i <= |k| ensures !OccursAt(k, "}", i) {
        if i < |k| {
          assert k[i..i + 1] == [k[i]];
        }
      }
    }
    ReplaceWithoutOccurrence(k, "}", "");
  }

  /** With neither `$`, `{` nor `}` in the key, both the wrapped and the bare
      annotation extract to the key itself. */
  lemma ExtractKeyOfPlainKey(k: string)
    requires '$' !in k && '{' !in k && '}' !in k
    ensures ExtractKey("${" + k + "}") == k
    ensures ExtractKey(k) == k
  {
    assert !Occurs(k, "${") by {
      forall i | 0 <= i <= |k| ensures !OccursAt(k, "${", i) {
        if i + 2 <= |k| {
          assert k[i..i + 2][0] == k[i];
        }
      }
    }
    ExtractKeyOfWrapped(k);
    ExtractKeyOfBare(k);
  }

  /** A bare key (the annotation written without the wrapper) is used as it is. */
  lemma ExtractKeyOfBare(k: string)
    requires !Occurs(k, "${") && '}' !in k
    ensures ExtractKey(k) == k
  {
    ReplaceWithoutOccurrence(k, "${", "");
    assert !Occurs(k, "}") by {
      forall i | 0 <= i <= |k| ensures !OccursAt(k, "}", i) {
        if i < |k| {
          assert k[i..i + 1] == [k[i]];
        }
      }
    }
    ReplaceWithoutOccurrence(k, "}", "");
  }

  /** The removal is a single pass, so a `${` formed by removing an inner one
      survives: `$${{x}` yields the key `${x`, for any `x` without `$` or `}`. */
  lemma SinglePassKeepsFormedOpener(x: string)
    requires '$' !in x && '}' !in x
    ensures ExtractKey("$${{" + x + "}") == "${" + x
  {
    var s := "$${{" + x + "}";
    var inner := "{" + x + "}";
    var kept := "${" + x;
    assert Replace(s, "${", "") == "$" + inner by {
      assert !StartsWith(s, "${") by { assert s[..2][1] == '$'; }
      ReplaceStepMiss(s, "${", "");
      assert StartsWith(s[1..], "${") by { assert s[1..][..2] == "${"; }
      ReplaceStepHit(s[1..], "${", "");
      assert s[1..][2..] == inner;
      AbsentFirstChar(inner, "${");
      ReplaceWithoutOccurrence(inner, "${", "");
    }
    assert "$" + inner == kept + ['}'];
    assert Replace(kept + ['}'], ['}'], "") == kept by {
      ReplaceCharConcat(kept, ['}'], '}', "");
      AbsentFirstChar(kept, ['}']);
      ReplaceWithoutOccurrence(kept, ['}'], "");
      ReplaceStepHit(['}'], ['}'], "");
    }
    assert "}" == ['}'];
  }

  /** A declared field and the text of its `@Value` annotation, if it has one. */
  datatype FieldDecl = FieldDecl(field: Field, annotation: Option<string>)

  /** `field.set(obj, aString)` on a field whose type cannot hold a `String`. */
  datatype InjectError = IllegalArgument(fieldName: string)

  /** The object's fields after injection, and the exception that stopped it, if
      any. Fields written before the exception stay written. */
  datatype Injection = Injected(values: map<string, Value>) | InjectFailed(values: map<string, Value>, error: InjectError)

  /** The types `String` is assignable to. */
  const StringSupertypes: set<string> := {
    "class java.lang.Object", "interface java.lang.CharSequence", "interface java.io.Serializable",
    "interface java.lang.Comparable", "interface java.lang.constant.Constable",
    "interface java.lang.constant.ConstantDesc"
  }

  /** A field of this type accepts a `String` through `field.set`. */
  predicate AcceptsString(t: JavaType)
  {
    t == StringType || (t.OtherType? && t.name in StringSupertypes)
  }

  /** What the store holds for a field: nothing for a field without `@Value`,
      otherwise the exact lookup of its extracted key. */
  function Bound(store: Store, d: FieldDecl): Option<string>
  {
    if d.annotation.Some? then Get(store, ExtractKey(d.annotation.value)) else None
  }

  /** Field names of one class are distinct, and the object has a value for each. */
  predicate WellFormed(decls: seq<FieldDecl>, values: map<string, Value>)
  {
    && (forall i, j :: 0 <= i < j < |decls| ==> decls[i].field.name != decls[j].field.name)
    && (forall i :: 0 <= i < |decls| ==> decls[i].field.name in values)
  }

  /** What injection leaves in a field that held `before`: the raw stored string when
      the lookup finds one, otherwise `before`. */
  function InjectedValue(store: Store, d: FieldDecl, before: Value): Value
  {
    if Bound(store, d).Some? then Str(Bound(store, d).value) else before
  }

  /** Injection threw at field `i`, the first field that finds a value but cannot
      hold a `String`: every earlier field is injected, field `i` and every later
      field still holds its value from `values`. */
  predicate FirstRejectedAt(store: Store, decls: seq<FieldDecl>, values: map<string, Value>, r: Injection, i: int)
  {
    && 0 <= i < |decls|
    && r == InjectFailed(r.values, IllegalArgument(decls[i].field.name))
    && Bound(store, decls[i]).Some? && !AcceptsString(decls[i].field.fieldType)
    && (forall j :: 0 <= j < i && Bound(store, decls[j]).Some? ==> AcceptsString(decls[j].field.fieldType))
    && (forall j :: 0 <= j < i ==>
          && decls[j].field.name in values && decls[j].field.name in r.values
          && r.values[decls[j].field.name] == InjectedValue(store, decls[j], values[decls[j].field.name]))
    && (forall j :: i <= j < |decls| ==>
          && decls[j].field.name in values && decls[j].field.name in r.values
          && r.values[decls[j].field.name] == values[decls[j].field.name])
  }

  /** `injectConfig(obj)`: fields are visited in the order `getDeclaredFields`
      returns them (declaration order on HotSpot), which is the order of `decls`;
      "first" below is first in that order. A field whose lookup finds a value
      gets that raw string; a field without `@Value` or whose key is absent keeps
      its value. Injection completes exactly when every field that finds a value
      can hold a `String`; otherwise it throws at the first such field, with every
      earlier field injected and that field and every later one as it was. Names
      that are not declared fields are never touched. */
  function InjectConfig(store: Store, decls: seq<FieldDecl>, values: map<string, Value>): (r: Injection)
    requires WellFormed(decls, values)
    ensures r.values.Keys == values.Keys
    ensures forall n :: n in values && (forall i :: 0 <= i < |decls| ==> decls[i].field.name != n) ==>
              r.values[n] == values[n]
    ensures r.Injected? <==>
              forall i :: 0 <= i < |decls| && Bound(store, decls[i]).Some? ==> AcceptsString(decls[i].field.fieldType)
    ensures r.Injected? ==> forall i :: 0 <= i < |decls| ==>
              r.values[decls[i].field.name] == InjectedValue(store, decls[i], values[decls[i].field.name])
    ensures r.InjectFailed? ==> exists i :: FirstRejectedAt(store, decls, values, r, i)
    decreases |decls|
  {
    if decls == [] then
      Injected(values)
    else
      var d := decls[0];
      var rest := decls[1..];
      var next :=
        match Bound(store, d)
        case None => values
        case Some(v) => values[d.field.name := Str(v)];
      if Bound(store, d).Some? && !AcceptsString(d.field.fieldType) then
        assert FirstRejectedAt(store, decls, values, InjectFailed(values, IllegalArgument(d.field.name)), 0);
        InjectFailed(values, IllegalArgument(d.field.name))
      else
        assert WellFormed(rest, next) by {
          forall i, j | 0 <= i < j < |rest| ensures rest[i].field.name != rest[j].field.name {
            assert rest[i] == decls[i + 1] && rest[j] == decls[j + 1];
          }
        }
        var r := InjectConfig(store, rest, next);
        InjectKeepsOthers(store, decls, values, next, r);
        InjectCompletes(store, decls, values, next, r);
        assert r.InjectFailed? ==> exists i :: FirstRejectedAt(store, decls, values, r, i) by {
          if r.InjectFailed? {
            var i :| FirstRejectedAt(store, rest, next, r, i);
            FirstRejectedShift(store, decls, values, next, r, i);
          }
        }
        r
  }

  /** A failure at field `i` of the rest of the declarations, after the first field
      was injected, is a failure at field `i + 1` of all of them. */
  lemma FirstRejectedShift(store: Store, decls: seq<FieldDecl>, values: map<string, Value>,
                           next: map<string, Value>, r: Injection, i: int)
    requires WellFormed(decls, values) && |decls| > 0
    requires Bound(store, decls[0]).Some? ==> AcceptsString(decls[0].field.fieldType)
    requires next == values[decls[0].field.name := InjectedValue(store, decls[0], values[decls[0].field.name])]
    requires FirstRejectedAt(store, decls[1..], next, r, i)
    requires decls[0].field.name in r.values && r.values[decls[0].field.name] == next[decls[0].field.name]
    ensures FirstRejectedAt(store, decls, values, r, i + 1)
  {
    var rest := decls[1..];
    forall j | 0 < j < |decls|
      ensures decls[j] == rest[j - 1] && decls[j].field.name != decls[0].field.name
    {
      assert decls[0].field.name != decls[j].field.name;
    }
  }

  /** Every later field has a name other than the first's. */
  lemma RestNamesDiffer(decls: seq<FieldDecl>, values: map<string, Value>)
    requires WellFormed(decls, values) && |decls| > 0
    ensures forall i :: 0 < i < |decls| ==> decls[i] == decls[1..][i - 1] && decls[i].field.name != decls[0].field.name
  {
    forall i | 0 < i < |decls| ensures decls[i].field.name != decls[0].field.name {
      assert decls[0].field.name != decls[i].field.name;
    }
  }

  /** Injecting the first field, then the rest, keeps the key set, leaves names
      that are not declared fields alone, and leaves the first field as it was
      after its own step. */
  lemma InjectKeepsOthers(store: Store, decls: seq<FieldDecl>, values: map<string, Value>,
                          next: map<string, Value>, r: Injection)
    requires WellFormed(decls, values) && |decls| > 0
    requires next == values[decls[0].field.name := InjectedValue(store, decls[0], values[decls[0].field.name])]
    requires r.values.Keys == next.Keys
    requires forall n :: n in next && (forall i :: 0 <= i < |decls[1..]| ==> decls[1..][i].field.name != n) ==>
               r.values[n] == next[n]
    ensures r.values.Keys == values.Keys
    ensures forall n :: n in values && (forall i :: 0 <= i < |decls| ==> decls[i].field.name != n) ==>
              r.values[n] == values[n]
    ensures r.values[decls[0].field.name] == next[decls[0].field.name]
  {
    var rest := decls[1..];
    RestNamesDiffer(decls, values);
    forall n | n in values && (forall i :: 0 <= i < |decls| ==> decls[i].field.name != n)
      ensures r.values[n] == values[n]
    {
      assert forall i :: 0 <= i < |rest| ==> rest[i].field.name == decls[i + 1].field.name;
    }
    assert forall i :: 0 <= i < |rest| ==> rest[i].field.name != decls[0].field.name;
  }

  /** Injecting the first field, which accepts what it is given, then the rest:
      the whole completes exactly when the rest does, and then every field holds
      its injected value. */
  lemma InjectCompletes(store: Store, decls: seq<FieldDecl>, values: map<string, Value>,
                        next: map<string, Value>, r: Injection)
    requires WellFormed(decls, values) && |decls| > 0
    requires Bound(store, decls[0]).Some? ==> AcceptsString(decls[0].field.fieldType)
    requires next == values[decls[0].field.name := InjectedValue(store, decls[0], values[decls[0].field.name])]
    requires r.values.Keys == values.Keys && r.values[decls[0].field.name] == next[decls[0].field.name]
    requires r.Injected? <==> forall i :: 0 <= i < |decls[1..]| && Bound(store, decls[1..][i]).Some? ==>
               AcceptsString(decls[1..][i].field.fieldType)
    requires r.Injected? ==> forall i :: 0 <= i < |decls[1..]| ==>
               r.values[decls[1..][i].field.name] == InjectedValue(store, decls[1..][i], next[decls[1..][i].field.name])
    ensures r.Injected? <==>
              forall i :: 0 <= i < |decls| && Bound(store, decls[i]).Some? ==> AcceptsString(decls[i].field.fieldType)
    ensures r.Injected? ==> forall i :: 0 <= i < |decls| ==>
              r.values[decls[i].field.name] == InjectedValue(store, decls[i], values[decls[i].field.name])
  {
    RestNamesDiffer(decls, values);
  }
}
