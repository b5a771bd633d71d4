/**
  Unit-bearing values and the operations the formulas apply to them:
  products, quotients, differences, the logarithm of a ratio and conversion
  to a declared unit. Every failure the unit library or Python raises on the
  way is an `Error` value.
 */
module Quantities {
  import opened Units

  /** The failures a formula evaluation can surface to its caller. */
  datatype Error =
    | MissingKey(key: string)         // a declared input is absent from the mapping
    | DimMismatch(from: Dim, to: Dim) // incompatible dimensions in a difference or a conversion
    | DivByZero                       // division by a zero magnitude
    | NotFound(name: string)          // registry lookup by an unknown formula name

  datatype Result<+T> = Ok(value: T) | Err(error: Error) {
    predicate IsFailure() {
      Err?
    }

    function PropagateFailure<U>(): Result<U>
      requires Err?
    {
      Err(error)
    }

    function Extract(): T
      requires Ok?
    {
      value
    }
  }

  datatype Option<+T> = None | Some(value: T)

  /** A magnitude expressed in a unit: what a caller supplies and what a formula returns. */
  datatype Quantity = Quantity(magnitude: real, unit: Unit)

  /** The same physical value normalised to SI base units, with its dimension. */
  datatype Measure = Measure(si: real, dim: Dim)

  /** The named inputs of one evaluation, keyed by variable key. */
  type Inputs = map<string, Quantity>

  /** SI-normalised value of a quantity. */
  function ToMeasure(q: Quantity): Measure
  {
    Measure(q.magnitude * q.unit.scale, q.unit.dim)
  }

  /** Normalising keeps zero and sign, because every scale factor is positive. */
  lemma MeasureSign(q: Quantity)
    ensures Si(q) == 0.0 <==> q.magnitude == 0.0
    ensures Si(q) > 0.0 <==> q.magnitude > 0.0
    ensures Si(q) < 0.0 <==> q.magnitude < 0.0
  {
    var s := q.unit.scale;
    assert s > 0.0;
    if q.magnitude > 0.0 {
      assert q.magnitude * s > 0.0;
    } else if q.magnitude < 0.0 {
      assert q.magnitude * s < 0.0;
    }
  }

  /** SI magnitude of a quantity. */
  function Si(q: Quantity): real
  {
    ToMeasure(q).si
  }

  /** Boltzmann constant in J/K (exact SI value). */
  const Boltzmann: real := 0.00000000000000000000001380649
  /** Avogadro constant in 1/mol (exact SI value). */
  const Avogadro: real := 602214076000000000000000.0

  /** The library's `k`: Boltzmann constant as a joule per kelvin value. */
  const KB := Measure(Boltzmann, DimDiv(Energy, Temperature))
  /** The library's `R`: molar gas constant, defined as k times N_A. */
  const R := Measure(Boltzmann * Avogadro, MolarEnergyPerKelvin)

  /** Both physical constants are positive, and R is 8.31446261815324 J/(mol K). */
  lemma ConstantsPositive()
    ensures KB.si > 0.0 && R.si > 0.0
    ensures R.si == 8.31446261815324
  {
  }

  function Mul(a: Measure, b: Measure): Measure
  {
    Measure(a.si * b.si, DimMul(a.dim, b.dim))
  }

  function Neg(a: Measure): Measure
  {
    Measure(-a.si, a.dim)
  }

  /** Negation is subtraction from zero in the same dimension. */
  lemma NegIsSubFromZero(a: Measure)
    ensures Sub(Measure(0.0, a.dim), a) == Ok(Neg(a))
  {
  }

  /** Quotient; a zero divisor is Python's ZeroDivisionError on float magnitudes. */
  function Div(a: Measure, b: Measure): (r: Result<Measure>)
    ensures r.Ok? <==> b.si != 0.0
    ensures r.Err? ==> r.error == DivByZero
    ensures r.Ok? ==> r.value.dim == DimDiv(a.dim, b.dim)
  {
    if b.si == 0.0 then Err(DivByZero)
    else Ok(Measure(a.si / b.si, DimDiv(a.dim, b.dim)))
  }

  /** A quotient times its divisor gives back the dividend. */
  lemma DivCancels(a: Measure, b: Measure)
    requires b.si != 0.0
    ensures Div(a, b).value.si * b.si == a.si
    ensures DimMul(Div(a, b).value.dim, b.dim) == a.dim
  {
  }

  /** A product of two non-zero measures is non-zero, so it can be divided by. */
  lemma MulNonZero(a: Measure, b: Measure)
    requires a.si != 0.0 && b.si != 0.0
    ensures Mul(a, b).si != 0.0
  {
    var x, y := a.si, b.si;
    assert x * y != 0.0;
  }

  /** A product divided by a non-zero factor gives back the other factor. */
  lemma MulDivCancels(a: Measure, b: Measure)
    requires b.si != 0.0
    ensures Div(Mul(a, b), b) == Ok(a)
  {
    var x, y := a.si, b.si;
    assert (x * y) / y == x;
    assert Mul(a, b).si == x * y;
    assert DimDiv(DimMul(a.dim, b.dim), b.dim) == a.dim;
    assert Div(Mul(a, b), b) == Ok(Measure((x * y) / y, a.dim));
  }

  /** Difference; operands of different dimensions are the library's dimensionality error. */
  function Sub(a: Measure, b: Measure): (r: Result<Measure>)
    ensures r.Ok? <==> a.dim == b.dim
    ensures r.Err? ==> r.error == DimMismatch(a.dim, b.dim)
    ensures r.Ok? ==> r.value.si + b.si == a.si && r.value.dim == a.dim
  {
    if a.dim != b.dim then Err(DimMismatch(a.dim, b.dim))
    else Ok(Measure(a.si - b.si, a.dim))
  }

  /**
    Natural logarithm of a dimensionless value. The logarithm itself is the
    numerical library's and is passed in as `ln`; a value that has a dimension
    is refused by the unit library before `ln` is applied.
   */
  function Log(a: Measure, ln: real -> real): (r: Result<Measure>)
    ensures r.Ok? <==> a.dim == Dimensionless
    ensures r.Ok? ==> r.value == Measure(ln(a.si), Dimensionless)
    ensures r.Err? ==> r.error == DimMismatch(a.dim, Dimensionless)
  {
    if a.dim != Dimensionless then Err(DimMismatch(a.dim, Dimensionless))
    else Ok(Measure(ln(a.si), Dimensionless))
  }

  /**
    Conversion to the unit `target`: fails when `target` measures another
    dimension, and otherwise denotes the same physical value.
   */
  function To(m: Measure, target: Unit): (r: Result<Quantity>)
    ensures r.Ok? <==> target.dim == m.dim
    ensures r.Ok? ==> r.value.unit == target && ToMeasure(r.value) == m
    ensures r.Err? ==> r.error == DimMismatch(m.dim, target.dim)
  {
    if target.dim != m.dim then Err(DimMismatch(m.dim, target.dim))
    else Ok(Quantity(m.si / target.scale, target))
  }

  /**
    Converting a quantity to any unit of its dimension and back to its own unit
    gives the original quantity.
   */
  lemma ConvertRoundTrip(q: Quantity, v: Unit)
    requires v.dim == q.unit.dim
    ensures To(ToMeasure(q), v).Ok?
    ensures To(ToMeasure(To(ToMeasure(q), v).value), q.unit) == Ok(q)
  {
    var there := To(ToMeasure(q), v).value;
    var back := To(ToMeasure(there), q.unit).value;
    assert back.magnitude * q.unit.scale == q.magnitude * q.unit.scale;
  }

  /** Reads one named input, normalised to SI; an absent key is Python's KeyError. */
  function Get(inputs: Inputs, key: string): (r: Result<Measure>)
    ensures r.Ok? <==> key in inputs
    ensures r.Ok? ==> r.value == ToMeasure(inputs[key])
    ensures r.Err? ==> r.error == MissingKey(key)
  {
    if key in inputs then Ok(ToMeasure(inputs[key])) else Err(MissingKey(key))
  }
}
