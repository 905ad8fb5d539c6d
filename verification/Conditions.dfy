// The condition language that guards transitions.

module Conditions {
  import opened Rows
  import opened Json

  /** `s.split(".")`: never empty, and consecutive dots give empty parts. */
  function Split(s: string): (parts: seq<string>)
    ensures |parts| > 0
    ensures forall part <- parts :: '.' !in part
  {
    if s == "" then [""]
    else
      var rest := Split(s[1..]);
      if s[0] == '.' then [""] + rest else [[s[0]] + rest[0]] + rest[1..]
  }

  function Join(parts: seq<string>): string {
    if |parts| == 0 then ""
    else if |parts| == 1 then parts[0]
    else parts[0] + "." + Join(parts[1..])
  }

  /** The value a path leads to: null as soon as a part is missing or a step is not an object. */
  function Lookup(v: Value, path: seq<string>): Value
    decreases path
  {
    if path == [] then v
    else if v.Obj? then Lookup(Get(v.fields, path[0]), path[1..])
    else Null
  }

  /** The document that results from storing `x` at a path, creating objects on the way. */
  function Put(v: Value, path: seq<string>, x: Value): Value
    decreases path
  {
    if path == [] then x
    else
      var fields := if v.Obj? then v.fields else map[];
      Obj(fields[path[0] := Put(Get(fields, path[0]), path[1..], x)])
  }

  /** The operators; anything Python raises on is false. */
  predicate Operator(actual: Value, operator: Value, target: Value) {
    if operator == Str("==") then Equal(actual, target)
    else if operator == Str("!=") then !Equal(actual, target)
    else if operator in {Str(">"), Str("<"), Str(">="), Str("<=")} then
      var a, t := ToFloat(actual), ToFloat(target);
      a.Some? && t.Some? &&
      if operator == Str(">") then Less(t.value, a.value)
      else if operator == Str("<") then Less(a.value, t.value)
      else if operator == Str(">=") then AtMost(t.value, a.value)
      else AtMost(a.value, t.value)
    else if operator == Str("in") then Contains(target, actual) == Some(true)
    else if operator == Str("contains") then Contains(actual, target) == Some(true)
    else false
  }

  /** When a condition holds of a context. A field that is not text cannot be split, which counts as false. */
  predicate Holds(config: Option<Object>, context: Object) {
    if config.None? || config.value == map[] then true
    else
      var field := Get(config.value, "field");
      var operator := if "operator" in config.value then config.value["operator"] else Str("==");
      var target := Get(config.value, "value");
      if !Truthy(field) then true
      else if !field.Str? then false
      else
        var actual := Lookup(Obj(context), Split(field.s));
        if actual == Null && target != Null then false else Operator(actual, operator, target)
  }

  /** A condition as it is written: a field, an operator and a target. */
  function Config(field: string, operator: string, target: Value): Object {
    map["field" := Str(field), "operator" := Str(operator), "value" := target]
  }

  /** The evaluator as it runs: a loop that walks the path and stops early at a value that is not an object. */
  method Evaluate(config: Option<Object>, context: Object) returns (holds: bool)
    ensures holds == Holds(config, context)
  {
    if config.None? || config.value == map[] {
      return true;
    }
    var field := Get(config.value, "field");
    var operator := if "operator" in config.value then config.value["operator"] else Str("==");
    var target := Get(config.value, "value");
    if !Truthy(field) {
      return true;
    }
    if !field.Str? {
      return false;
    }
    var actual := Obj(context);
    var parts := Split(field.s);
    var i := 0;
    while i < |parts|
      invariant 0 <= i <= |parts|
      invariant Lookup(Obj(context), parts) == Lookup(actual, parts[i..])
    {
      if actual.Obj? {
        actual := Get(actual.fields, parts[i]);
      } else {
        actual := Null;
        break;
      }
      i := i + 1;
    }
    if actual == Null && target != Null {
      return false;
    }
    return Operator(actual, operator, target);
  }

  // ---------------------------------------------------------------- paths

  lemma {:induction false} SplitPlain(s: string)
    requires '.' !in s
    ensures Split(s) == [s]
  {
    if s != "" {
      SplitPlain(s[1..]);
      assert s == [s[0]] + s[1..];
    }
  }

  lemma {:induction false} SplitAtDot(s: string, t: string)
    requires '.' !in s
    ensures Split(s + "." + t) == [s] + Split(t)
  {
    var whole := s + "." + t;
    if s == "" {
      assert whole[1..] == t;
    } else {
      assert whole[1..] == s[1..] + "." + t;
      SplitAtDot(s[1..], t);
      assert s == [s[0]] + s[1..];
    }
  }

  /** Joining dot-free parts and splitting again gives the parts. */
  lemma {:induction false} SplitJoin(parts: seq<string>)
    requires |parts| > 0
    requires forall part <- parts :: '.' !in part
    ensures Split(Join(parts)) == parts
  {
    if |parts| == 1 {
      SplitPlain(parts[0]);
    } else {
      SplitJoin(parts[1..]);
      SplitAtDot(parts[0], Join(parts[1..]));
    }
  }

  lemma {:induction false} JoinSplit(s: string)
    ensures Join(Split(s)) == s
  {
    if s != "" {
      JoinSplit(s[1..]);
      var rest := Split(s[1..]);
      assert s == [s[0]] + s[1..];
      if s[0] == '.' {
        assert ([""] + rest)[1..] == rest;
      } else {
        assert ([[s[0]] + rest[0]] + rest[1..])[1..] == rest[1..];
      }
    }
  }

  /** Looking up a path in two halves. */
  lemma {:induction false} LookupConcat(v: Value, p: seq<string>, q: seq<string>)
    ensures Lookup(v, p + q) == Lookup(Lookup(v, p), q)
    decreases p
  {
    if p == [] {
      assert p + q == q;
    } else if v.Obj? {
      assert (p + q)[1..] == p[1..] + q;
      LookupConcat(Get(v.fields, p[0]), p[1..], q);
    }
  }

  lemma {:induction false} LookupPut(v: Value, path: seq<string>, x: Value)
    ensures Lookup(Put(v, path, x), path) == x
    decreases path
  {
    if path != [] {
      var fields := if v.Obj? then v.fields else map[];
      LookupPut(Get(fields, path[0]), path[1..], x);
    }
  }

  /** Storing at one path leaves every path that parts ways with it alone. */
  lemma {:induction false} LookupPutElsewhere(v: Value, path: seq<string>, x: Value, other: seq<string>)
    requires !(path <= other) && !(other <= path)
    ensures Lookup(Put(v, path, x), other) == Lookup(v, other)
    decreases path
  {
    var fields := if v.Obj? then v.fields else map[];
    if path[0] == other[0] {
      assert path == [path[0]] + path[1..] && other == [path[0]] + other[1..];
      LookupPutElsewhere(Get(fields, path[0]), path[1..], x, other[1..]);
      LookupNull(other[1..]);
    }
  }

  lemma LookupNull(path: seq<string>)
    ensures Lookup(Null, path) == Null
  {
  }

  /** A value stored under a dotted field name satisfies the equality condition on that name. */
  lemma StoredValueMatches(context: Object, path: seq<string>, x: Value)
    requires |path| > 0 && forall part <- path :: '.' !in part
    ensures Put(Obj(context), path, x).Obj?
    ensures Holds(Some(Config(Join(path), "==", x)), Put(Obj(context), path, x).fields)
  {
    var stored := Put(Obj(context), path, x);
    SplitJoin(path);
    LookupPut(Obj(context), path, x);
    EqualReflexive(x);
    assert Get(Config(Join(path), "==", x), "field") == Str(Join(path));
    assert Obj(stored.fields) == stored;
  }

  /** A path goes from node to node through keys that are there. */
  ghost predicate Leads(nodes: seq<Value>, path: seq<string>) {
    && |nodes| == |path| + 1
    && forall i | 0 <= i < |path| ::
         nodes[i].Obj? && path[i] in nodes[i].fields && nodes[i + 1] == nodes[i].fields[path[i]]
  }

  /** A lookup gives the value at the end of such a path, and null if there is none. */
  lemma {:induction false} LookupExact(v: Value, path: seq<string>) returns (nodes: Option<seq<Value>>)
    ensures nodes.Some? ==>
              && Leads(nodes.value, path) && nodes.value[0] == v && nodes.value[|path|] == Lookup(v, path)
    ensures nodes.None? ==>
              && Lookup(v, path) == Null
              && forall other | Leads(other, path) :: other[0] != v
    decreases path
  {
    if path == [] {
      nodes := Some([v]);
    } else if v.Obj? && path[0] in v.fields {
      var rest := LookupExact(v.fields[path[0]], path[1..]);
      if rest.Some? {
        nodes := Some([v] + rest.value);
      } else {
        nodes := None;
        forall other | Leads(other, path)
          ensures other[0] != v
        {
          assert Leads(other[1..], path[1..]);
        }
      }
    } else {
      nodes := None;
      LookupNull(path[1..]);
    }
  }

  // ------------------------------------------------------------ operators

  lemma ConfigHolds(field: string, operator: string, target: Value, context: Object)
    requires field != ""
    ensures var actual := Lookup(Obj(context), Split(field));
            Holds(Some(Config(field, operator, target)), context)
            == ((actual == Null ==> target == Null) && Operator(actual, Str(operator), target))
  {
    var config := Config(field, operator, target);
    assert Get(config, "field") == Str(field) && config["operator"] == Str(operator) && Get(config, "value") == target;
  }

  /** `==` and `!=` on one field are complements, except when the path gives null and the target is not null. */
  lemma EqualityComplement(field: string, target: Value, context: Object)
    requires field != ""
    ensures var eq := Holds(Some(Config(field, "==", target)), context);
            var ne := Holds(Some(Config(field, "!=", target)), context);
            var absent := Lookup(Obj(context), Split(field)) == Null && target != Null;
            && (eq != ne <==> !absent)
            && (absent ==> !eq && !ne)
  {
    ConfigHolds(field, "==", target, context);
    ConfigHolds(field, "!=", target, context);
  }

  /** On plain numbers the four order operators are the order of the numbers, and false as soon as one is too large for a
      float. */
  lemma NumericOperators(field: string, target: Value, context: Object)
    requires field != "" && target.Num? && Lookup(Obj(context), Split(field)).Num?
    ensures var n := Lookup(Obj(context), Split(field)).n;
            var fit := FitsFloat(n) && FitsFloat(target.n);
            && (Holds(Some(Config(field, ">", target)), context) <==> fit && n > target.n)
            && (Holds(Some(Config(field, "<", target)), context) <==> fit && n < target.n)
            && (Holds(Some(Config(field, ">=", target)), context) <==> fit && n >= target.n)
            && (Holds(Some(Config(field, "<=", target)), context) <==> fit && n <= target.n)
  {
    ConfigHolds(field, ">", target, context);
    ConfigHolds(field, "<", target, context);
    ConfigHolds(field, ">=", target, context);
    ConfigHolds(field, "<=", target, context);
  }

  /** `in` looks the field's value up in the target list, `contains` looks the target up in the field's list. A null value is in
      no list, not even in one that has a null. */
  lemma MembershipOperators(field: string, target: Value, context: Object)
    requires field != ""
    ensures var actual := Lookup(Obj(context), Split(field));
            && (target.List? ==>
                  (Holds(Some(Config(field, "in", target)), context)
                   <==> actual != Null && exists i | 0 <= i < |target.elements| :: Equal(target.elements[i], actual)))
            && (actual.List? ==>
                  (Holds(Some(Config(field, "contains", target)), context)
                   <==> exists i | 0 <= i < |actual.elements| :: Equal(actual.elements[i], target)))
  {
    ConfigHolds(field, "in", target, context);
    ConfigHolds(field, "contains", target, context);
  }

  /** A field on which a numeric comparison against the target means something. */
  predicate Comparable(field: string, target: Value, context: Object) {
    var a, t := ToFloat(Lookup(Obj(context), Split(field))), ToFloat(target);
    a.Some? && t.Some? && a.value != NaN && t.value != NaN
  }

  /** A `>` and a `<=` guard on one field and value are never both true; exactly one is, if and only if both sides are numbers
      other than NaN. */
  lemma ThresholdGuards(field: string, target: Value, context: Object)
    requires field != ""
    ensures var above := Holds(Some(Config(field, ">", target)), context);
            var within := Holds(Some(Config(field, "<=", target)), context);
            && !(above && within)
            && (above || within <==> Comparable(field, target, context))
  {
    ConfigHolds(field, ">", target, context);
    ConfigHolds(field, "<=", target, context);
  }

  // --------------------------------------- the operators, value by value

  /** A condition that is absent, empty or without a field holds. */
  lemma NoFieldHolds(config: Option<Object>, context: Object)
    requires config.Some? && config.value != map[] && "field" in config.value ==>
               config.value["field"] in {Null, Bool(false), Num(0.0), Str(""), List([]), Obj(map[])}
    ensures Holds(config, context)
  {
  }

  /** A field that is neither text nor one of the values without content fails. */
  lemma OtherFieldFails(config: Object, context: Object)
    requires "field" in config && !config["field"].Str?
    requires config["field"] !in {Null, Bool(false), Num(0.0), List([]), Obj(map[])}
    ensures !Holds(Some(config), context)
  {
  }

  /** Without an operator a condition asks for equality. */
  lemma DefaultOperator(config: Object, context: Object)
    requires "operator" !in config
    ensures Holds(Some(config), context) <==> Holds(Some(config["operator" := Str("==")]), context)
  {
    var explicit := config["operator" := Str("==")];
    assert Get(explicit, "field") == Get(config, "field") && Get(explicit, "value") == Get(config, "value");
  }

  /** Without a target a condition asks about null. */
  lemma DefaultTarget(config: Object, context: Object)
    requires "value" !in config
    ensures Holds(Some(config), context) <==> Holds(Some(config["value" := Null]), context)
  {
    var explicit := config["value" := Null];
    assert Get(explicit, "field") == Get(config, "field") && Get(explicit, "value") == Get(config, "value");
  }

  lemma UnknownOperatorFails(field: string, operator: string, target: Value, context: Object)
    requires field != "" && operator !in {"==", "!=", ">", "<", ">=", "<=", "in", "contains"}
    ensures !Holds(Some(Config(field, operator, target)), context)
  {
    ConfigHolds(field, operator, target, context);
  }

  /** Equality with a text: the path leads to exactly that text. */
  lemma EqualityWithText(field: string, text: string, context: Object)
    requires field != ""
    ensures Holds(Some(Config(field, "==", Str(text))), context) <==> Lookup(Obj(context), Split(field)) == Str(text)
  {
    ConfigHolds(field, "==", Str(text), context);
  }

  /** Equality with a number: the path leads to that number, or to the boolean that stands for it. */
  lemma EqualityWithNumber(field: string, n: real, context: Object)
    requires field != ""
    ensures var actual := Lookup(Obj(context), Split(field));
            Holds(Some(Config(field, "==", Num(n))), context)
            <==> actual == Num(n) || (n == 1.0 && actual == Bool(true)) || (n == 0.0 && actual == Bool(false))
  {
    ConfigHolds(field, "==", Num(n), context);
  }

  /** Equality with null: the path is missing or leads to null. */
  lemma EqualityWithNull(field: string, context: Object)
    requires field != ""
    ensures Holds(Some(Config(field, "==", Null)), context) <==> Lookup(Obj(context), Split(field)) == Null
  {
    ConfigHolds(field, "==", Null, context);
  }

  /** Equality with any value is equality but for booleans in the place of 0 and 1. */
  lemma EqualityMeans(field: string, target: Value, context: Object)
    requires field != ""
    ensures Holds(Some(Config(field, "==", target)), context)
       <==> Canonical(Lookup(Obj(context), Split(field))) == Canonical(target)
  {
    ConfigHolds(field, "==", target, context);
    EqualIsCanonical(Lookup(Obj(context), Split(field)), target);
  }

  /** `v` is read as the number `x`. */
  ghost predicate ReadsAs(v: Value, x: real) {
    || (v == Num(x) && FitsFloat(x))
    || (v == Bool(true) && x == 1.0)
    || (v == Bool(false) && x == 0.0)
    || (v.Str? && ParseFloat(v.s) == Some(Finite(x)))
  }

  lemma ReadsAsFloat(v: Value, x: real)
    requires ReadsAs(v, x)
    ensures ToFloat(v) == Some(Finite(x)) && v != Null
  {
  }

  lemma OperatorOnFloats(actual: Value, target: Value, x: real, y: real)
    requires ToFloat(actual) == Some(Finite(x)) && ToFloat(target) == Some(Finite(y))
    ensures Operator(actual, Str(">"), target) <==> x > y
    ensures Operator(actual, Str("<"), target) <==> x < y
    ensures Operator(actual, Str(">="), target) <==> x >= y
    ensures Operator(actual, Str("<="), target) <==> x <= y
  {
  }

  /** The order operators on anything that reads as a number, be it a number, a boolean or a text. */
  lemma OrderOnNumbers(field: string, target: Value, context: Object, x: real, y: real)
    requires field != "" && ReadsAs(Lookup(Obj(context), Split(field)), x) && ReadsAs(target, y)
    ensures Holds(Some(Config(field, ">", target)), context) <==> x > y
    ensures Holds(Some(Config(field, "<", target)), context) <==> x < y
    ensures Holds(Some(Config(field, ">=", target)), context) <==> x >= y
    ensures Holds(Some(Config(field, "<=", target)), context) <==> x <= y
  {
    ReadsAsFloat(Lookup(Obj(context), Split(field)), x);
    ReadsAsFloat(target, y);
    OperatorOnFloats(Lookup(Obj(context), Split(field)), target, x, y);
    ConfigHolds(field, ">", target, context);
    ConfigHolds(field, "<", target, context);
    ConfigHolds(field, ">=", target, context);
    ConfigHolds(field, "<=", target, context);
  }

  /** `v` is not read as a number at all, not even as an infinite one. */
  ghost predicate Unreadable(v: Value) {
    || v.Null? || v.List? || v.Obj?
    || (v.Num? && !FitsFloat(v.n))
    || (v.Str? && (ParseFloat(v.s) == None || ParseFloat(v.s) == Some(NaN)))
  }

  lemma UnreadableFails(field: string, operator: string, target: Value, context: Object)
    requires field != "" && operator in {">", "<", ">=", "<="}
    requires Unreadable(Lookup(Obj(context), Split(field))) || Unreadable(target)
    ensures !Holds(Some(Config(field, operator, target)), context)
  {
    ConfigHolds(field, operator, target, context);
  }

  /** `in` and `contains` on a text: the other side is a text that occurs in it. */
  lemma MembershipInText(field: string, text: string, target: Value, context: Object)
    requires field != ""
    ensures var actual := Lookup(Obj(context), Split(field));
            && (Holds(Some(Config(field, "in", Str(text))), context)
                <==> actual.Str? && exists before, after :: text == before + actual.s + after)
            && (actual.Str? ==>
                  (Holds(Some(Config(field, "contains", target)), context)
                   <==> target.Str? && exists before, after :: actual.s == before + target.s + after))
  {
    var actual := Lookup(Obj(context), Split(field));
    ConfigHolds(field, "in", Str(text), context);
    ConfigHolds(field, "contains", target, context);
    if actual.Str? {
      SubstringMeans(actual.s, text);
      if target.Str? {
        SubstringMeans(target.s, actual.s);
      }
    }
  }

  /** `in` and `contains` on an object: the other side is one of its keys. */
  lemma MembershipInObject(field: string, fields: Object, target: Value, context: Object)
    requires field != ""
    ensures var actual := Lookup(Obj(context), Split(field));
            && (Holds(Some(Config(field, "in", Obj(fields))), context) <==> actual.Str? && actual.s in fields)
            && (actual.Obj? ==>
                  (Holds(Some(Config(field, "contains", target)), context)
                   <==> target.Str? && target.s in actual.fields))
  {
    ConfigHolds(field, "in", Obj(fields), context);
    ConfigHolds(field, "contains", target, context);
  }

  /** Nothing is in a number, a boolean or null. */
  lemma MembershipElsewhereFails(field: string, target: Value, context: Object)
    requires field != ""
    ensures var actual := Lookup(Obj(context), Split(field));
            && (target.Null? || IsNumber(target) ==> !Holds(Some(Config(field, "in", target)), context))
            && (actual.Null? || IsNumber(actual) ==> !Holds(Some(Config(field, "contains", target)), context))
  {
    ConfigHolds(field, "in", target, context);
    ConfigHolds(field, "contains", target, context);
  }
}
