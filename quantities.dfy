/**
 The catalogue of named quantities of quantities.h, each built from the base
 quantities by `*` and `/` exactly as there, with the reduced forms the
 engine gives the principal ones.
 */
module NamedQuantities {

  import Tags
  import BaseDimensions
  import opened Dimensions
  import opened Reduction
  import opened QuantityAlgebra

  const Dimensionless: Quantity := Quantity([])

  const Time: Quantity := Quantity([BaseDimensions.Time])
  const Length: Quantity := Quantity([BaseDimensions.Length])
  const Mass: Quantity := Quantity([BaseDimensions.Mass])
  const Current: Quantity := Quantity([BaseDimensions.Current])
  const Temperature: Quantity := Quantity([BaseDimensions.Temperature])
  const Luminosity: Quantity := Quantity([BaseDimensions.Luminosity])
  const Amount: Quantity := Quantity([BaseDimensions.Amount])
  const Currency: Quantity := Quantity([BaseDimensions.Currency])
  const Angle: Quantity := Quantity([BaseDimensions.Angle])

  const Frequency: Quantity := Div(Dimensionless, Time)
  const Area: Quantity := Mul(Length, Length)
  const Volume: Quantity := Mul(Area, Length)

  // kinematics
  const Height: Quantity := Length
  const Width: Quantity := Length
  const Depth: Quantity := Length
  const Distance: Quantity := Length
  const Displacement: Quantity := Length

  const Velocity: Quantity := Div(Length, Time)
  const Speed: Quantity := Velocity
  const Acceleration: Quantity := Div(Velocity, Time)
  const Jerk: Quantity := Div(Acceleration, Time)

  const AngularVelocity: Quantity := Div(Angle, Time)
  const AngularAcceleration: Quantity := Div(AngularVelocity, Time)

  // kinetics
  const Force: Quantity := Mul(Mass, Acceleration)
  const Momentum: Quantity := Mul(Mass, Velocity)
  const Impulse: Quantity := Momentum
  const MomentOfInertia: Quantity := Mul(Area, Mass)
  const AngularMomentum: Quantity := Mul(MomentOfInertia, AngularVelocity)
  const Energy: Quantity := Mul(Force, Length)
  const Moment: Quantity := Div(Energy, Angle)
  const Torque: Quantity := Moment
  const Power: Quantity := Div(Energy, Time)
  const Intensity: Quantity := Div(Power, Area)
  const AreaDensity: Quantity := Div(Mass, Area)

  // mechanics and fluids
  const Density: Quantity := Div(Mass, Volume)
  const SpecificVolume: Quantity := Div(Volume, Mass)
  const Pressure: Quantity := Div(Energy, Volume)
  const Stress: Quantity := Pressure
  const Strain: Quantity := Dimensionless
  const Stiffness: Quantity := Div(Force, Distance)
  const DynamicViscosity: Quantity := Mul(Pressure, Time)
  const KinematicViscosity: Quantity := Div(DynamicViscosity, Density)

  // flow rate
  const MassFlowRate: Quantity := Div(Mass, Time)
  const VolumetricFlowRate: Quantity := Div(Volume, Time)

  // thermodynamics
  const Entropy: Quantity := Div(Energy, Temperature)
  const SpecificHeat: Quantity := Div(Energy, Mul(Mass, Temperature))
  const SpecificEnergy: Quantity := Div(Energy, Mass)
  const HeatFluxDensity: Quantity := Div(Power, Area)

  // electrics
  const Charge: Quantity := Mul(Current, Time)
  const ChargeDensity: Quantity := Div(Charge, Volume)
  const ElectricPotential: Quantity := Div(Energy, Charge)
  const Voltage: Quantity := ElectricPotential
  const ElectricField: Quantity := Div(Voltage, Length)
  const Resistance: Quantity := Div(Voltage, Current)
  const ElectricalResistivity: Quantity := Mul(Resistance, Length)
  const Impedance: Quantity := Resistance
  const ElectricalConductance: Quantity := Div(Dimensionless, Resistance)
  const MagneticFluxDensity: Quantity := Div(Force, Mul(Velocity, Charge))
  const MagneticFlux: Quantity := Mul(MagneticFluxDensity, Area)
  const Capacitance: Quantity := Div(Charge, Voltage)
  const CurrentDensity: Quantity := Div(Current, Area)

  // chemistry
  const ChemicalPotential: Quantity := Div(Energy, Amount)
  const Concentration: Quantity := Div(Amount, Volume)

  // ---------------------------------------------------------------------------
  // Reduced forms
  // ---------------------------------------------------------------------------

  /** A Length, Time or Mass term at the given exponent. */
  function L(e: int): Dimension { Dimension(Tags.Length, e) }
  function T(e: int): Dimension { Dimension(Tags.Time, e) }
  function M(e: int): Dimension { Dimension(Tags.Mass, e) }

  /** Every base quantity is its single base dimension with exponent 1, already reduced. */
  lemma BaseQuantitiesAreSingleTerms()
    ensures Time == Quantity([Of(Tags.Time)]) && Length == Quantity([Of(Tags.Length)])
    ensures Mass == Quantity([Of(Tags.Mass)]) && Current == Quantity([Of(Tags.Current)])
    ensures Temperature == Quantity([Of(Tags.Temperature)]) && Luminosity == Quantity([Of(Tags.Luminosity)])
    ensures Amount == Quantity([Of(Tags.Amount)]) && Currency == Quantity([Of(Tags.Currency)])
    ensures Angle == Quantity([Of(Tags.Angle)])
    ensures Simplified(Time) == Time && Simplified(Length) == Length && Simplified(Mass) == Mass
    ensures Simplified(Current) == Current && Simplified(Temperature) == Temperature
    ensures Simplified(Luminosity) == Luminosity && Simplified(Amount) == Amount
    ensures Simplified(Currency) == Currency && Simplified(Angle) == Angle
  {
    ReduceIsIdempotent(Time.dimensions);
    ReduceIsIdempotent(Length.dimensions);
    ReduceIsIdempotent(Mass.dimensions);
    ReduceIsIdempotent(Current.dimensions);
    ReduceIsIdempotent(Temperature.dimensions);
    ReduceIsIdempotent(Luminosity.dimensions);
    ReduceIsIdempotent(Amount.dimensions);
    ReduceIsIdempotent(Currency.dimensions);
    ReduceIsIdempotent(Angle.dimensions);
  }

  /**
   `Dimensionless` is `Quantity<>`, and `Strain` is that very type: both hold by
   the catalogue's definitions; the engine's part is that reduction leaves the
   empty quantity as it is.
   */
  lemma DimensionlessIsEmpty()
    ensures Dimensionless.dimensions == [] && Strain == Dimensionless
    ensures Simplified(Dimensionless) == Dimensionless
  {
    ReduceIsIdempotent([]);
  }

  lemma AreaAndVolume()
    ensures Area == Quantity([L(2)])
    ensures Volume == Quantity([L(3)])
  {
    assert Length.dimensions + Length.dimensions == [L(1), L(1)];
    ReducesTo([L(1), L(1)], [L(2)]);
    assert Area.dimensions + Length.dimensions == [L(2), L(1)];
    ReducesTo([L(2), L(1)], [L(3)]);
  }

  lemma FrequencyIsPerTime()
    ensures Frequency == Quantity([T(-1)])
  {
    assert Negate(Time.dimensions) == [T(-1)];
    assert Dimensionless.dimensions + [T(-1)] == [T(-1)];
    ReducesTo([T(-1)], [T(-1)]);
  }

  lemma VelocityIsLengthPerTime()
    ensures Velocity == Quantity([L(1), T(-1)])
  {
    assert Negate(Time.dimensions) == [T(-1)];
    assert Length.dimensions + [T(-1)] == [L(1), T(-1)];
    ReducesTo([L(1), T(-1)], [L(1), T(-1)]);
  }

  lemma AccelerationIsVelocityPerTime()
    ensures Acceleration == Quantity([L(1), T(-2)])
  {
    VelocityIsLengthPerTime();
    assert Negate(Time.dimensions) == [T(-1)];
    assert Velocity.dimensions + [T(-1)] == [L(1), T(-1), T(-1)];
    ReducesTo([L(1), T(-1), T(-1)], [L(1), T(-2)]);
  }

  lemma JerkIsAccelerationPerTime()
    ensures Jerk == Quantity([L(1), T(-3)])
  {
    AccelerationIsVelocityPerTime();
    assert Negate(Time.dimensions) == [T(-1)];
    assert Acceleration.dimensions + [T(-1)] == [L(1), T(-2), T(-1)];
    ReducesTo([L(1), T(-2), T(-1)], [L(1), T(-3)]);
  }

  /** F = ma. */
  lemma ForceIsMassTimesAcceleration()
    ensures Force == Quantity([M(1), L(1), T(-2)])
  {
    AccelerationIsVelocityPerTime();
    assert Mass.dimensions + Acceleration.dimensions == [M(1), L(1), T(-2)];
    ReducesTo([M(1), L(1), T(-2)], [M(1), L(1), T(-2)]);
  }

  lemma EnergyIsForceTimesLength()
    ensures Energy == Quantity([M(1), L(2), T(-2)])
  {
    ForceIsMassTimesAcceleration();
    assert Force.dimensions + Length.dimensions == [M(1), L(1), T(-2), L(1)];
    ReducesTo([M(1), L(1), T(-2), L(1)], [M(1), L(2), T(-2)]);
  }

  lemma PressureIsEnergyPerVolume()
    ensures Pressure == Quantity([M(1), L(-1), T(-2)])
  {
    EnergyIsForceTimesLength();
    PerVolume(Energy, [M(1), L(2), T(-2)]);
    EnergyTermsPerVolume();
  }

  lemma EnergyTermsPerVolume()
    ensures ReduceDimensions([M(1), L(2), T(-2)] + [L(-3)]) == [M(1), L(-1), T(-2)]
  {
    assert [M(1), L(2), T(-2)] + [L(-3)] == [M(1), L(2), T(-2), L(-3)];
    ReducesTo([M(1), L(2), T(-2), L(-3)], [M(1), L(-1), T(-2)]);
  }

  /** Dividing by `Volume` appends the single term Length^-3 before reducing. */
  lemma PerVolume(q: Quantity, ds: seq<Dimension>)
    requires q.dimensions == ds
    ensures Div(q, Volume) == Quantity(ReduceDimensions(ds + [L(-3)]))
  {
    AreaAndVolume();
    assert Negate(Volume.dimensions) == [L(-3)];
  }

  /**
   The aliases of the catalogue name the very same quantities as their targets.
   This records the catalogue's declarations; it holds by those definitions
   alone, not by anything the engine computes.
   */
  lemma AliasesAreIdentical()
    ensures Speed == Velocity && Impulse == Momentum && Torque == Moment
    ensures Stress == Pressure && Voltage == ElectricPotential && Impedance == Resistance
    ensures Height == Length && Width == Length && Depth == Length
    ensures Distance == Length && Displacement == Length
  {
  }

  // ---------------------------------------------------------------------------
  // Relations between named quantities
  // ---------------------------------------------------------------------------

  lemma TimeSquared()
    ensures Mul(Time, Time) == Quantity([T(2)])
  {
    assert Time.dimensions + Time.dimensions == [T(1), T(1)];
    ReducesTo([T(1), T(1)], [T(2)]);
  }

  lemma LengthPerTimeSquared()
    ensures Div(Length, Mul(Time, Time)) == Quantity([L(1), T(-2)])
  {
    TimeSquared();
    var n := Negate(Mul(Time, Time).dimensions);
    assert n == [T(-2)];
    assert Length.dimensions + n == [L(1), T(-2)];
  }

  /**
   Force built as Mass times (Length divided by (Time times Time)) is the
   catalogue's Force: not only the same quantity but the very same type.
   */
  lemma ForceFromBaseQuantities()
    ensures Mul(Mass, Div(Length, Mul(Time, Time))) == Force
    ensures IsSame(Mul(Mass, Div(Length, Mul(Time, Time))), Force)
  {
    ForceIsMassTimesAcceleration();
    LengthPerTimeSquared();
    assert Mass.dimensions + [L(1), T(-2)] == [M(1), L(1), T(-2)];
    ReducesTo([M(1), L(1), T(-2)], [M(1), L(1), T(-2)]);
    IsSameIsEquivalence(Force, Force, Force);
  }

  /** Velocity times Time is the same quantity as Length. */
  lemma VelocityTimesTimeIsLength()
    ensures Mul(Velocity, Time) == Length
    ensures IsSame(Mul(Velocity, Time), Length)
  {
    VelocityIsLengthPerTime();
    assert Velocity.dimensions + Time.dimensions == [L(1), T(-1), T(1)];
    ReducesTo([L(1), T(-1), T(1)], [L(1)]);
    IsSameIsEquivalence(Length, Length, Length);
  }

  /**
   Length divided by Time, then by Time again, is Acceleration. This is the
   catalogue's own definition of Acceleration with Velocity unfolded, so it
   holds by definition; it records how the catalogue composes the division.
   */
  lemma LengthPerTimePerTimeIsAcceleration()
    ensures Div(Div(Length, Time), Time) == Acceleration
  {
  }
}
