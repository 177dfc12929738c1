/**
 * ThunderKit.Core.Data.PackageVersion: a resolved package version whose identity (Equals and
 * GetHashCode) is its dependency id alone.
 */
module PackageVersions {

  datatype PackageVersion = PackageVersion(
    version: string,
    dependencyId: string,
    versionMarkdown: string,
    groupDependencyId: string,
    dependencies: seq<PackageVersion>,
    name: string)

  /** The argument of Equals(object): a PackageVersion, an object of another type, or null. */
  datatype Obj = VersionObj(v: PackageVersion) | OtherObj(typeName: string) | NullObj

  /** PackageVersion.Equals(object). */
  predicate Equals(self: PackageVersion, obj: Obj)
  {
    obj.VersionObj? && self.dependencyId == obj.v.dependencyId
  }

  const HashSeed: int := 996503521

  /** The unchecked 32-bit wrap-around of C# int arithmetic. */
  function Wrap32(x: int): (r: int)
    ensures -0x8000_0000 <= r < 0x8000_0000
    ensures (r - x) % 0x1_0000_0000 == 0
  {
    (x + 0x8000_0000) % 0x1_0000_0000 - 0x8000_0000
  }

  /**
   * PackageVersion.GetHashCode. The string hash of the runtime is a parameter (it is
   * randomised per process); `stringHash` stands for EqualityComparer<string>.Default.
   */
  function GetHashCode(self: PackageVersion, stringHash: string -> int): (r: int)
    ensures -0x8000_0000 <= r < 0x8000_0000
  {
    Wrap32(HashSeed + Wrap32(stringHash(self.dependencyId)))
  }

  /** Two versions are equal exactly when their dependency ids are. */
  lemma EqualsIffSameDependencyId(a: PackageVersion, b: PackageVersion)
    ensures Equals(a, VersionObj(b)) <==> a.dependencyId == b.dependencyId
  {
  }

  /** Nothing but another PackageVersion can be equal to a PackageVersion. */
  lemma NeverEqualsOtherType(a: PackageVersion, obj: Obj)
    requires !obj.VersionObj?
    ensures !Equals(a, obj)
  {
  }

  /** Equals is an equivalence relation on versions. */
  lemma EqualsIsEquivalence(a: PackageVersion, b: PackageVersion, c: PackageVersion)
    ensures Equals(a, VersionObj(a))
    ensures Equals(a, VersionObj(b)) ==> Equals(b, VersionObj(a))
    ensures Equals(a, VersionObj(b)) && Equals(b, VersionObj(c)) ==> Equals(a, VersionObj(c))
  {
  }

  /** Changing any field but the dependency id leaves every equality unchanged. */
  lemma EqualsIgnoresOtherFields(a: PackageVersion, obj: Obj, version: string, markdown: string,
                                 group: string, deps: seq<PackageVersion>, name: string)
    ensures var a' := a.(version := version, versionMarkdown := markdown, groupDependencyId := group,
                         dependencies := deps, name := name);
            && (Equals(a', obj) <==> Equals(a, obj))
            && Equals(a, VersionObj(a')) && Equals(a', VersionObj(a))
  {
  }

  /** Equality by dependency id is coarser than equality of all fields. */
  lemma EqualsIsNotStructural()
    ensures exists a: PackageVersion, b: PackageVersion :: Equals(a, VersionObj(b)) && a != b
  {
    var a := PackageVersion("1.0.0", "author-name-1.0.0", "", "author-name", [], "name");
    var b := a.(version := "2.0.0");
    assert Equals(a, VersionObj(b)) && a != b;
  }

  /** Equal versions hash alike, whatever the string hash of the runtime is. */
  lemma HashAgreesWithEquals(a: PackageVersion, b: PackageVersion, stringHash: string -> int)
    requires Equals(a, VersionObj(b))
    ensures GetHashCode(a, stringHash) == GetHashCode(b, stringHash)
  {
  }

  /** The hash is the seed plus the string hash of the dependency id, modulo 2^32. */
  lemma HashIsSeedPlusIdHash(a: PackageVersion, stringHash: string -> int)
    ensures (GetHashCode(a, stringHash) - HashSeed - stringHash(a.dependencyId)) % 0x1_0000_0000 == 0
  {
    var h := stringHash(a.dependencyId);
    var w := Wrap32(h);
    var r := GetHashCode(a, stringHash);
    assert (w - h) % 0x1_0000_0000 == 0;
    assert (r - (HashSeed + w)) % 0x1_0000_0000 == 0;
    ModSum(w - h, r - (HashSeed + w));
  }

  lemma ModSum(x: int, y: int)
    requires x % 0x1_0000_0000 == 0 && y % 0x1_0000_0000 == 0
    ensures (x + y) % 0x1_0000_0000 == 0
  {
    var m := 0x1_0000_0000;
    assert x == (x / m) * m;
    assert y == (y / m) * m;
    assert x + y == (x / m + y / m) * m;
  }
}
