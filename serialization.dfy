/**
 * SerializableVector3: a Vector3 stored as three coordinates with private
 * setters, so a value never changes after construction.
 */
module Serialization {
  import opened Vectors

  datatype SerializableVector3 = SerializableVector3(x: real, y: real, z: real)
  {
    /** `new Vector3(x, y, z)` */
    function ToVector3(): (v: Vector3)
      ensures v.x == x && v.y == y && v.z == z
    {
      Vector3(x, y, z)
    }
  }

  /** `new SerializableVector3(vector)`: copies the three coordinates. */
  function FromVector3(vector: Vector3): (s: SerializableVector3)
    ensures s.x == vector.x && s.y == vector.y && s.z == vector.z
  {
    SerializableVector3(vector.x, vector.y, vector.z)
  }

  /** Storing a vector and reading it back gives the same vector. */
  lemma RoundTrip(vector: Vector3)
    ensures FromVector3(vector).ToVector3() == vector
  {
  }

  /** Reading a stored vector and storing it again gives an equal value. */
  lemma RoundTripBack(s: SerializableVector3)
    ensures FromVector3(s.ToVector3()) == s
  {
  }

  /** Construction is injective: different vectors are stored differently. */
  lemma FromVector3Injective(a: Vector3, b: Vector3)
    requires FromVector3(a) == FromVector3(b)
    ensures a == b
  {
    RoundTrip(a);
    RoundTrip(b);
  }
}
