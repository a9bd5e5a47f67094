/**
 * A color ramp definition. ColorControlPointList is a nested attribute subject whose
 * encoding, decoding and copy constructor are not part of this model: it is an opaque
 * value with equality (the Java `equals`), and a copy of it is equal to the original.
 */
module ControlPoints {
  type ColorControlPointList(==)
}
