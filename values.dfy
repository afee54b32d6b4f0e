/** Cell values of the table engine, the error kinds it raises, and the
    natural ordering it sorts by. */
module Values {

  /** Column names are text. */
  type Name = string

  datatype Option<T> = None | Some(value: T)

  /** The exception classes the engine raises, as error kinds. */
  datatype Error = KeyError | ValueError | TypeError | IndexError | AttributeError

  datatype Result<T> = Ok(value: T) | Err(error: Error)

  /** A dynamically typed cell. `Null` is the engine's `None`. Floating-point
      numbers are modelled as exact reals: rounding is not modelled. */
  datatype Value = Null | Int(i: int) | Float(r: real) | Str(s: string) | Bool(b: bool)

  /** `isinstance(v, int)`: in Python a bool is an int. */
  predicate IsInt(v: Value) {
    v.Int? || v.Bool?
  }

  /** An int as Python reads it: a bool counts 1 or 0 (0 for anything
      else). */
  function AsInt(v: Value): int {
    match v
    case Int(i) => i
    case Bool(b) => if b then 1 else 0
    case _ => 0
  }

  /** `isinstance(v, (int, float))`. */
  predicate IsNumeric(v: Value) {
    IsInt(v) || v.Float?
  }

  /** A number as a real (0 for anything else). */
  function AsReal(v: Value): real {
    if v.Float? then v.r else AsInt(v) as real
  }

  /** Python truthiness of a value, as `if keep:` applies it to mask entries. */
  predicate Truthy(v: Value) {
    match v
    case Null => false
    case Int(i) => i != 0
    case Float(r) => r != 0.0
    case Str(s) => s != ""
    case Bool(b) => b
  }

  /** Lexicographic order on text by character code. */
  predicate StrLt(a: string, b: string) {
    if a == [] then b != []
    else b != [] && (a[0] < b[0] || (a[0] == b[0] && StrLt(a[1..], b[1..])))
  }

  /** Kind order used when values of different kinds meet: booleans, then
      numbers, then text, then null. */
  function Rank(v: Value): nat {
    match v
    case Bool(_) => 0
    case Int(_) => 1
    case Float(_) => 1
    case Str(_) => 2
    case Null => 3
  }

  /** The natural order of values. Within one kind it is the natural order
      (numbers compare by magnitude, an integer before an equal float); null
      comes after every other value, as the per-position group key
      `(x is None, x)` puts it. */
  predicate Lt(a: Value, b: Value) {
    if Rank(a) != Rank(b) then Rank(a) < Rank(b)
    else if a.Bool? then !a.b && b.b
    else if a.Str? then StrLt(a.s, b.s)
    else if a.Null? then false
    else AsReal(a) < AsReal(b) || (AsReal(a) == AsReal(b) && a.Int? && b.Float?)
  }

  /** Lt descending: `reverse=True`. */
  predicate Gt(a: Value, b: Value) {
    Lt(b, a)
  }

  ghost predicate StrictTotalOrder<K(!new)>(lt: (K, K) -> bool) {
    && (forall a :: !lt(a, a))
    && (forall a, b, c :: lt(a, b) && lt(b, c) ==> lt(a, c))
    && (forall a, b :: a != b ==> lt(a, b) || lt(b, a))
  }

  lemma {:induction false} StrLtIrreflexive(a: string)
    ensures !StrLt(a, a)
  {
    if a != [] {
      StrLtIrreflexive(a[1..]);
    }
  }

  lemma {:induction false} StrLtTransitive(a: string, b: string, c: string)
    requires StrLt(a, b) && StrLt(b, c)
    ensures StrLt(a, c)
  {
    if a != [] && a[0] == b[0] && b[0] == c[0] {
      StrLtTransitive(a[1..], b[1..], c[1..]);
    }
  }

  lemma {:induction false} StrLtTotal(a: string, b: string)
    requires a != b
    ensures StrLt(a, b) || StrLt(b, a)
  {
    if a != [] && b != [] && a[0] == b[0] {
      StrLtTotal(a[1..], b[1..]);
    }
  }

  /** The value order is a strict total order, so sorting by it is
      deterministic. */
  lemma LtIsStrictTotalOrder()
    ensures StrictTotalOrder(Lt)
  {
    forall a ensures !Lt(a, a) {
      if a.Str? { StrLtIrreflexive(a.s); }
    }
    forall a, b, c | Lt(a, b) && Lt(b, c) ensures Lt(a, c) {
      if a.Str? && b.Str? && c.Str? { StrLtTransitive(a.s, b.s, c.s); }
    }
    forall a, b | a != b ensures Lt(a, b) || Lt(b, a) {
      if a.Str? && b.Str? { StrLtTotal(a.s, b.s); }
    }
  }

  lemma GtIsStrictTotalOrder()
    ensures StrictTotalOrder(Gt)
  {
    LtIsStrictTotalOrder();
    assert forall a, b :: Gt(a, b) == Lt(b, a);
  }
}
