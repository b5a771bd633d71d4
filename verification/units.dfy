/**
  The unit algebra the formula catalog relies on: physical dimensions as
  integer exponent vectors over the SI base dimensions, and the table of unit
  names that appear in the catalog's declarations and in the input forms,
  each with its scale factor to SI base units and its dimension.
 */
module Units {

  /** Exponents of mass, length, time, temperature and amount of substance. */
  datatype Dim = Dim(mass: int, length: int, time: int, temperature: int, substance: int)

  const Dimensionless := Dim(0, 0, 0, 0, 0)
  const Mass := Dim(1, 0, 0, 0, 0)
  const Length := Dim(0, 1, 0, 0, 0)
  const Temperature := Dim(0, 0, 0, 1, 0)
  const Substance := Dim(0, 0, 0, 0, 1)
  const Energy := Dim(1, 2, -2, 0, 0)
  const Pressure := Dim(1, -1, -2, 0, 0)
  const Volume := Dim(0, 3, 0, 0, 0)
  const SpecificHeat := Dim(0, 2, -2, -1, 0)
  const InverseTemperature := Dim(0, 0, 0, -1, 0)
  const HeatCapacity := Dim(1, 2, -2, -1, 0)
  const MolarEnergyPerKelvin := Dim(1, 2, -2, -1, -1)

  /** Dimension of a product of two quantities. */
  function DimMul(a: Dim, b: Dim): Dim
  {
    Dim(a.mass + b.mass, a.length + b.length, a.time + b.time,
        a.temperature + b.temperature, a.substance + b.substance)
  }

  /** Dimension of a quotient of two quantities. */
  function DimDiv(a: Dim, b: Dim): Dim
  {
    Dim(a.mass - b.mass, a.length - b.length, a.time - b.time,
        a.temperature - b.temperature, a.substance - b.substance)
  }

  /**
    A unit: its spelling, the factor that turns a magnitude in it into a
    magnitude in SI base units, and the dimension it measures.
   */
  datatype UnitDef = UnitDef(name: string, scale: real, dim: Dim)

  /** Units are multiplicative: the scale is positive and there is no offset. */
  type Unit = u: UnitDef | u.scale > 0.0 witness UnitDef("1", 1.0, Dimensionless)

  // The units used by a formula declaration, plus the linear alternatives
  // offered next to them in the input forms. Offset temperature scales
  // (degree_Celsius, degree_Fahrenheit as absolute temperatures) are not here.
  const Gram: Unit := UnitDef("gram", 0.001, Mass)
  const Kilogram: Unit := UnitDef("kilogram", 1.0, Mass)
  const Milligram: Unit := UnitDef("milligram", 0.000001, Mass)
  const Meter: Unit := UnitDef("meter", 1.0, Length)
  const Kilometer: Unit := UnitDef("kilometer", 1000.0, Length)
  const Centimeter: Unit := UnitDef("centimeter", 0.01, Length)
  const Millimeter: Unit := UnitDef("millimeter", 0.001, Length)
  const Kelvin: Unit := UnitDef("kelvin", 1.0, Temperature)
  const DeltaCelsius: Unit := UnitDef("delta_degree_Celsius", 1.0, Temperature)
  const DeltaFahrenheit: Unit := UnitDef("delta_degree_Fahrenheit", 5.0 / 9.0, Temperature)
  const Mol: Unit := UnitDef("mol", 1.0, Substance)
  const Pascal: Unit := UnitDef("pascal", 1.0, Pressure)
  const Kilopascal: Unit := UnitDef("kilopascal", 1000.0, Pressure)
  const Megapascal: Unit := UnitDef("megapascal", 1000000.0, Pressure)
  const Bar: Unit := UnitDef("bar", 100000.0, Pressure)
  const Atmosphere: Unit := UnitDef("atmosphere", 101325.0, Pressure)
  // pound-force (0.45359237 kg under standard gravity) per square inch
  const Psi: Unit := UnitDef("psi", 0.45359237 * 9.80665 / (0.0254 * 0.0254), Pressure)
  const Liter: Unit := UnitDef("liter", 0.001, Volume)
  const Milliliter: Unit := UnitDef("milliliter", 0.000001, Volume)
  const CubicMeter: Unit := UnitDef("meter ** 3", 1.0, Volume)
  const CubicCentimeter: Unit := UnitDef("centimeter ** 3", 0.000001, Volume)
  const JoulePerGramKelvin: Unit := UnitDef("joule / (gram * kelvin)", 1000.0, SpecificHeat)
  const JoulePerKilogramKelvin: Unit := UnitDef("joule / (kilogram * kelvin)", 1.0, SpecificHeat)
  const PerKelvin: Unit := UnitDef("1 / kelvin", 1.0, InverseTemperature)
  const Joule: Unit := UnitDef("joule", 1.0, Energy)
  const Kilojoule: Unit := UnitDef("kilojoule", 1000.0, Energy)
  const Calorie: Unit := UnitDef("calorie", 4.184, Energy)
  const JoulePerDeltaCelsius: Unit := UnitDef("joule / delta_degree_Celsius", 1.0, HeatCapacity)
}
