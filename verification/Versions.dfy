/** lib/util.c: semantic versions and their comparison. */
module Versions {
  /**
   * Version numbers are unsigned 32-bit in the library; the model keeps them
   * below 2^31, where the comparison is an order (see CompareAgrees).
   */
  type Component = x: int | 0 <= x < 0x8000_0000

  datatype Version = Version(major: Component, minor: Component)

  /** An unsigned difference stored in a signed 32-bit integer. */
  function Wrap32(x: int): (r: int)
    ensures -0x8000_0000 <= r < 0x8000_0000
    ensures -0x8000_0000 <= x < 0x8000_0000 ==> r == x
  {
    (x + 0x8000_0000) % 0x1_0000_0000 - 0x8000_0000
  }

  /** dc_version_compare on any two pairs of unsigned 32-bit numbers. */
  function RawCompare(major1: int, minor1: int, major2: int, minor2: int): int {
    var res := Wrap32(major1 - major2);
    if res == 0 then Wrap32(minor1 - minor2) else res
  }

  /** The sign of the deciding difference. */
  function Deciding(major1: int, minor1: int, major2: int, minor2: int): int {
    if major1 != major2 then major1 - major2 else minor1 - minor2
  }

  /**
   * The comparison has the sign of the version order exactly when the deciding
   * difference is below 2^31: 4294967295.0 compares as older than 0.0.
   */
  lemma CompareAgrees(major1: int, minor1: int, major2: int, minor2: int)
    requires 0 <= major1 < 0x1_0000_0000 && 0 <= minor1 < 0x1_0000_0000
    requires 0 <= major2 < 0x1_0000_0000 && 0 <= minor2 < 0x1_0000_0000
    ensures var d := Deciding(major1, minor1, major2, minor2);
            var c := RawCompare(major1, minor1, major2, minor2);
            ((c < 0 <==> d < 0) && (c == 0 <==> d == 0)) <==> -0x8000_0000 <= d < 0x8000_0000
  {
    var d := Deciding(major1, minor1, major2, minor2);
    if d >= 0x8000_0000 {
      assert d + 0x8000_0000 - 0x1_0000_0000 == (d + 0x8000_0000) % 0x1_0000_0000;
    } else if d < -0x8000_0000 {
      assert d + 0x8000_0000 + 0x1_0000_0000 == (d + 0x8000_0000) % 0x1_0000_0000;
    }
  }

  predicate Older(a: Version, b: Version) {
    a.major < b.major || (a.major == b.major && a.minor < b.minor)
  }

  /** dc_version_compare: negative, zero or positive as `a` is older, equal or newer. */
  function Compare(a: Version, b: Version): (r: int)
    ensures r < 0 <==> Older(a, b)
    ensures r == 0 <==> a == b
    ensures r > 0 <==> Older(b, a)
  {
    RawCompare(a.major, a.minor, b.major, b.minor)
  }

  predicate AtMost(a: Version, b: Version) {
    !Older(b, a)
  }
}
