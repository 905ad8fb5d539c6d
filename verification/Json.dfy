// JSON values as Python sees them after decoding, and Python's rules for comparing them.

module Json {
  import opened Rows

  datatype Value =
    | Null
    | Bool(b: bool)
    | Num(n: real)
    | Str(s: string)
    | List(elements: seq<Value>)
    | Obj(fields: Object)

  type Object = map<string, Value>

  /** A Python float, with the special values that `float("nan")` and `float("inf")` produce. */
  datatype Float = NaN | NegInfinity | Finite(r: real) | PosInfinity

  /** How `float` reads a string: left open, since nothing here depends on the number syntax. None is a ValueError. */
  const ParseFloat: string -> Option<Float>

  /** `d.get(k)` */
  function Get(d: Object, k: string): Value {
    if k in d then d[k] else Null
  }

  predicate Truthy(v: Value) {
    match v
    case Null => false
    case Bool(b) => b
    case Num(n) => n != 0.0
    case Str(s) => s != ""
    case List(es) => es != []
    case Obj(d) => d != map[]
  }

  predicate IsNumber(v: Value) {
    v.Bool? || v.Num?
  }

  /** In Python True is 1 and False is 0. */
  function Number(v: Value): real
    requires IsNumber(v)
  {
    match v
    case Bool(b) => if b then 1.0 else 0.0
    case Num(n) => n
  }

  /** Python's `==`: booleans compare as numbers, containers compare element by element. */
  predicate Equal(a: Value, b: Value)
    decreases a
  {
    if IsNumber(a) && IsNumber(b) then Number(a) == Number(b)
    else
      match (a, b)
      case (List(xs), List(ys)) => |xs| == |ys| && forall i | 0 <= i < |xs| :: Equal(xs[i], ys[i])
      case (Obj(d), Obj(e)) => d.Keys == e.Keys && forall k | k in d :: Equal(d[k], e[k])
      case _ => a == b
  }

  lemma EqualReflexive(a: Value)
    ensures Equal(a, a)
  {
  }

  lemma {:induction false} EqualSymmetric(a: Value, b: Value)
    requires Equal(a, b)
    ensures Equal(b, a)
    decreases a
  {
    if a.List? {
      forall i | 0 <= i < |a.elements|
        ensures Equal(b.elements[i], a.elements[i])
      {
        EqualSymmetric(a.elements[i], b.elements[i]);
      }
    } else if a.Obj? {
      forall k | k in a.fields
        ensures Equal(b.fields[k], a.fields[k])
      {
        EqualSymmetric(a.fields[k], b.fields[k]);
      }
    }
  }

  lemma {:induction false} EqualTransitive(a: Value, b: Value, c: Value)
    requires Equal(a, b) && Equal(b, c)
    ensures Equal(a, c)
    decreases a
  {
    if a.List? {
      forall i | 0 <= i < |a.elements|
        ensures Equal(a.elements[i], c.elements[i])
      {
        EqualTransitive(a.elements[i], b.elements[i], c.elements[i]);
      }
    } else if a.Obj? {
      forall k | k in a.fields
        ensures Equal(a.fields[k], c.fields[k])
      {
        EqualTransitive(a.fields[k], b.fields[k], c.fields[k]);
      }
    }
  }

  /** What equality looks at: booleans become the numbers they stand for, at every depth. */
  function Canonical(v: Value): Value {
    match v
    case Bool(b) => Num(if b then 1.0 else 0.0)
    case List(es) => List(seq(|es|, i requires 0 <= i < |es| => Canonical(es[i])))
    case Obj(d) => Obj(map k | k in d :: Canonical(d[k]))
    case _ => v
  }

  /** Two values are equal exactly when nothing but booleans in the place of 0 and 1 tells them apart. */
  lemma {:induction false} EqualIsCanonical(a: Value, b: Value)
    ensures Equal(a, b) <==> Canonical(a) == Canonical(b)
    decreases a, 1
  {
    if a.List? && b.List? {
      EqualListsAreCanonical(a, b);
    } else if a.Obj? && b.Obj? {
      EqualObjectsAreCanonical(a, b);
    }
  }

  lemma {:induction false} EqualListsAreCanonical(a: Value, b: Value)
    requires a.List? && b.List?
    ensures Equal(a, b) <==> Canonical(a) == Canonical(b)
    decreases a, 0
  {
    var us, vs := Canonical(a).elements, Canonical(b).elements;
    if |us| == |vs| {
      forall i | 0 <= i < |us|
        ensures Equal(a.elements[i], b.elements[i]) <==> us[i] == vs[i]
      {
        EqualIsCanonical(a.elements[i], b.elements[i]);
      }
    }
  }

  lemma {:induction false} EqualObjectsAreCanonical(a: Value, b: Value)
    requires a.Obj? && b.Obj?
    ensures Equal(a, b) <==> Canonical(a) == Canonical(b)
    decreases a, 0
  {
    var u, v := Canonical(a).fields, Canonical(b).fields;
    assert u.Keys == a.fields.Keys && v.Keys == b.fields.Keys;
    if u.Keys == v.Keys {
      forall k | k in a.fields
        ensures Equal(a.fields[k], b.fields[k]) <==> u[k] == v[k]
      {
        EqualIsCanonical(a.fields[k], b.fields[k]);
      }
    }
  }

  const TWO_97: int := 0x2_0000_0000_0000_0000_0000_0000

  const TWO_970: int := TWO_97 * TWO_97 * TWO_97 * TWO_97 * TWO_97 * TWO_97 * TWO_97 * TWO_97 * TWO_97 * TWO_97

  /** The least integer that is too large for a float: 2 to the power of 1024, less 2 to the power of 970. */
  const FLOAT_LIMIT: int := (0x40_0000_0000_0000 - 1) * TWO_970

  predicate FitsFloat(n: real) {
    -(FLOAT_LIMIT as real) < n < FLOAT_LIMIT as real
  }

  /** `float(v)`: None is a TypeError, a ValueError or an OverflowError. Rounding is left aside. */
  function ToFloat(v: Value): Option<Float> {
    match v
    case Bool(b) => Some(Finite(Number(v)))
    case Num(n) => if FitsFloat(n) then Some(Finite(n)) else None
    case Str(s) => ParseFloat(s)
    case _ => None
  }

  /** Python's `<` on floats: false as soon as one side is NaN. */
  predicate Less(a: Float, b: Float) {
    match (a, b)
    case (NaN, _) => false
    case (_, NaN) => false
    case (Finite(x), Finite(y)) => x < y
    case (NegInfinity, _) => b != NegInfinity
    case (_, PosInfinity) => a != PosInfinity
    case _ => false
  }

  predicate AtMost(a: Float, b: Float) {
    Less(a, b) || (a == b && a != NaN)
  }

  /** Floats other than NaN are in one line, with the infinities at its ends and the numbers as they are. */
  lemma FloatsInLine(a: Float, b: Float, c: Float)
    ensures a == NaN || b == NaN ==> !Less(a, b) && !AtMost(a, b)
    ensures a != NaN && b != NaN ==> AtMost(a, b) == !Less(b, a) && (Less(a, b) || a == b || Less(b, a))
    ensures !Less(a, a) && (Less(a, b) && Less(b, c) ==> Less(a, c))
    ensures a != NaN ==> AtMost(NegInfinity, a) && AtMost(a, PosInfinity)
    ensures a.Finite? && b.Finite? ==> (Less(a, b) <==> a.r < b.r)
  {
  }

  predicate OccursAt(s: string, t: string, i: nat) {
    i + |s| <= |t| && t[i..i + |s|] == s
  }

  predicate IsSubstring(s: string, t: string) {
    exists i | 0 <= i <= |t| :: OccursAt(s, t, i)
  }

  /** A substring has some text before it and some after it. */
  lemma SubstringMeans(s: string, t: string)
    ensures IsSubstring(s, t) <==> exists before, after :: t == before + s + after
  {
    if IsSubstring(s, t) {
      var i :| 0 <= i <= |t| && OccursAt(s, t, i);
      assert t == t[..i] + s + t[i + |s|..];
    }
    forall before, after | t == before + s + after
      ensures IsSubstring(s, t)
    {
      assert OccursAt(s, t, |before|);
    }
  }

  /** Python's `x in c`: None is a TypeError. */
  function Contains(c: Value, x: Value): Option<bool> {
    match c
    case List(es) => Some(exists i | 0 <= i < |es| :: Equal(es[i], x))
    case Obj(d) => if x.List? || x.Obj? then None else Some(x.Str? && x.s in d)
    case Str(t) => if x.Str? then Some(IsSubstring(x.s, t)) else None
    case _ => None
  }
}
