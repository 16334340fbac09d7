/**
 * A location document (app/models/location.rb:15-21): its own placename, its
 * type, the root-first list of ancestor placenames, the stored name, the
 * admin level and the `disabled` flag of the Disableable concern.
 */
module LocationNode {
  import opened Wrappers
  import opened PathCodec

  /** A document id; the store orders documents by it. */
  type Id = nat

  /**
   * One location. `locationType` and `adminLevel` are `None` when the
   * property is unset, and then absent from the stored document.
   */
  datatype Node = Node(
    placename: string,
    locationType: Option<string>,
    hierarchy: seq<string>,
    name: string,
    adminLevel: Option<int>,
    disabled: bool)

  /** `is_top_level?` (location.rb:281-283): a root has a blank (empty) hierarchy. */
  predicate IsTopLevel(n: Node) {
    n.hierarchy == []
  }

  /** The placenames from the root down to the location itself. */
  function Path(n: Node): seq<string> {
    n.hierarchy + [n.placename]
  }

  /** `hierarchical_name` of a location (location.rb:175-181). */
  function HierarchicalNameOf(n: Node): string {
    HierarchicalName(n.hierarchy, n.placename)
  }

  /**
   * The two presence validations (location.rb:61-62, 284): the placename must
   * not be blank, and a top-level location must have an admin level.
   */
  predicate Validates(n: Node) {
    !IsBlank(n.placename) && (IsTopLevel(n) ==> n.adminLevel.Some?)
  }

  /** The last entry of a non-empty list (Ruby's `Array#last`). */
  function Last<T>(s: seq<T>): T
    requires s != []
  {
    s[|s| - 1]
  }
}
