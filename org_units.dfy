/** `get_users`: keep the fetched users that are assigned to the selected organisation unit. */
module OrgUnits {
  import opened Records
  import Seqs

  /**
   * `[ou['id'] for ou in user.get('organisationUnits', [])]`: one id per unit
   * entry; an id is listed exactly when the user holds the entry of that id.
   */
  function UnitIds(u: User): (ids: seq<string>)
    ensures u.organisationUnits.None? ==> ids == []
    ensures u.organisationUnits.Some? ==> |ids| == |u.organisationUnits.value|
    ensures forall id :: id in ids <==> u.organisationUnits.Some? && OrgUnitRef(id) in u.organisationUnits.value
  {
    match u.organisationUnits
    case None => []
    case Some(units) =>
      var ids := seq(|units|, k requires 0 <= k < |units| => units[k].id);
      IdsOfUnits(units, ids);
      ids
  }

  /** A unit entry holds only its id, so the id column lists exactly the entries' ids. */
  lemma IdsOfUnits(units: seq<OrgUnitRef>, ids: seq<string>)
    requires |ids| == |units|
    requires forall k :: 0 <= k < |units| ==> ids[k] == units[k].id
    ensures forall id :: id in ids <==> OrgUnitRef(id) in units
  {
    forall id ensures id in ids <==> OrgUnitRef(id) in units {
      if id in ids {
        var j :| 0 <= j < |ids| && ids[j] == id;
        assert units[j] == OrgUnitRef(id);
      }
      if OrgUnitRef(id) in units {
        var j :| 0 <= j < |units| && units[j] == OrgUnitRef(id);
        assert ids[j] == id;
      }
    }
  }

  /** The condition of the comprehension: the selected id is among the user's unit ids. */
  function BelongsTo(u: User, unitId: string): (b: bool)
    ensures b <==> u.organisationUnits.Some? && OrgUnitRef(unitId) in u.organisationUnits.value
  {
    unitId in UnitIds(u)
  }

  /**
   * The users assigned to `unitId`, each as often as it was fetched; a user
   * without an `organisationUnits` field is never kept.
   */
  function FilterByOrgUnit(users: seq<User>, unitId: string): (r: seq<User>)
    ensures |r| <= |users|
    ensures forall k :: 0 <= k < |r| ==>
      r[k].organisationUnits.Some? && OrgUnitRef(unitId) in r[k].organisationUnits.value
    ensures forall u :: multiset(r)[u] == (if u.organisationUnits.Some? && OrgUnitRef(unitId) in u.organisationUnits.value
                                           then multiset(users)[u] else 0)
  {
    Seqs.FilterMultiset(users, u => BelongsTo(u, unitId));
    Seqs.Filter(users, u => BelongsTo(u, unitId))
  }

  /**
   * The filter keeps the fetched order: it distributes over concatenation and
   * keeps a single user exactly when that user is assigned to the unit.
   */
  lemma {:induction false} FilterByOrgUnitKeepsOrder(a: seq<User>, b: seq<User>, unitId: string)
    ensures FilterByOrgUnit(a + b, unitId) == FilterByOrgUnit(a, unitId) + FilterByOrgUnit(b, unitId)
    ensures forall u :: FilterByOrgUnit([u], unitId) == if BelongsTo(u, unitId) then [u] else []
  {
    Seqs.FilterAppend(a, b, u => BelongsTo(u, unitId));
    forall u ensures FilterByOrgUnit([u], unitId) == if BelongsTo(u, unitId) then [u] else [] {
      assert [u][1..] == [];
    }
  }
}
