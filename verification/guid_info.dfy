/** `GuidInfo`: the persisted identity of a configuration item, compared by
    the GUID it wraps. */
module GuidInfos {

  /** A GUID is a 128-bit value. */
  type Guid = g: nat | g < 0x1_0000_0000_0000_0000_0000_0000_0000_0000

  datatype GuidInfo = GuidInfo(guid: Guid)

  /** `GuidInfo.Empty` and the parameterless constructor both wrap the
      all-zero GUID. */
  const Empty: GuidInfo := GuidInfo(0)

  function DefaultGuidInfo(): (r: GuidInfo)
    ensures r == Empty
  {
    GuidInfo(0)
  }

  /** The argument of `Equals(object)`: null, a `GuidInfo`, or an object of
      another type (which `as GuidInfo` turns into null). */
  datatype Obj = NullObj | GuidObj(info: GuidInfo) | OtherObj

  /** `Equals(object)`: true exactly for a `GuidInfo` wrapping the same GUID;
      null and foreign objects are never equal. */
  function EqualsObj(self: GuidInfo, obj: Obj): (r: bool)
    ensures r ==> obj.GuidObj? && obj.info == self
    ensures obj == GuidObj(self) ==> r
  {
    match obj
    case GuidObj(other) => other.guid == self.guid
    case _ => false
  }

  /** `GetHashCode` delegates to the GUID's hash, here the parameter `hash`. */
  function HashCode(self: GuidInfo, hash: Guid -> int): int {
    hash(self.guid)
  }

  /** Equal `GuidInfo`s have equal hash codes, as a hashed collection needs. */
  lemma HashAgreesWithEquals(a: GuidInfo, b: GuidInfo, hash: Guid -> int)
    requires EqualsObj(a, GuidObj(b))
    ensures HashCode(a, hash) == HashCode(b, hash)
  {
  }

  /** Equality is an equivalence on `GuidInfo` values. */
  lemma EqualsIsEquivalence(a: GuidInfo, b: GuidInfo, c: GuidInfo)
    ensures EqualsObj(a, GuidObj(a))
    ensures EqualsObj(a, GuidObj(b)) == EqualsObj(b, GuidObj(a))
    ensures EqualsObj(a, GuidObj(b)) && EqualsObj(b, GuidObj(c)) ==> EqualsObj(a, GuidObj(c))
  {
  }
}
