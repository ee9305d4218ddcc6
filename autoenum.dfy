/**
 * An AutoEnum subclass as an object: its declared members and the lookup table
 * cached on the class (`_value2member_map_normalized_`). `initialized` says
 * whether the class holds that attribute, `lookup` is its content.
 *
 * Two initialisers are modelled. `InitializeLookupAsWritten` follows the source:
 * it attaches the empty dict to the class before filling it, so a collision
 * leaves the partly filled dict cached and later lookups skip the build.
 * `InitializeLookup` attaches the table only once it is complete; it keeps
 * `Valid()` and is the one `FromStr` uses.
 */
module AutoEnumType {
  import opened Wrappers
  import opened Normalization
  import opened Members
  import opened Lookup
  import opened Resolve

  class AutoEnum {
    const members: seq<Member>
    var initialized: bool
    var lookup: map<string, nat>

    /** A cached table is the table of a successful build. */
    predicate Valid()
      reads this
    {
      initialized ==> BuildTable(members) == Ok(lookup)
    }

    /** A cached table is what the fill left behind, whether or not it raised. */
    predicate Cached()
      reads this
    {
      initialized ==> lookup == FillPrefix(Registrations(members), |members|).table
    }

    /** The class right after its declaration: no table is cached yet. */
    constructor(ms: seq<Member>)
      ensures members == ms && !initialized && lookup == map[]
      ensures Valid() && Cached()
    {
      members := ms;
      initialized := false;
      lookup := map[];
    }

    /**
     * `_initialize_lookup`, publishing the table only when the build succeeds:
     * a failed build leaves the class uncached, so the next call raises again.
     */
    method InitializeLookup() returns (raised: Option<Error>)
      requires Valid()
      modifies this
      ensures Valid()
      ensures old(initialized) ==> raised.None? && unchanged(this)
      ensures !old(initialized) ==> (raised.None? <==> BuildTable(members).Ok?)
      ensures !old(initialized) && raised.Some? ==> BuildTable(members) == Err(raised.value) && unchanged(this)
      ensures !old(initialized) && raised.None? ==> initialized && BuildTable(members) == Ok(lookup)
    {
      if initialized {
        return None;
      }
      var table;
      table, raised := FillTable(members);
      if raised.None? {
        lookup := table;
        initialized := true;
      }
    }

    /**
     * `_initialize_lookup` as written: the empty dict is attached to the class
     * first and filled afterwards, so after a collision the class keeps the
     * entries inserted before it.
     */
    method InitializeLookupAsWritten() returns (raised: Option<Error>)
      requires Cached()
      modifies this
      ensures Cached() && initialized
      ensures old(initialized) ==> raised.None? && unchanged(this)
      ensures !old(initialized) ==> Fill(lookup, raised) == FillPrefix(Registrations(members), |members|)
    {
      if initialized {
        return None;
      }
      initialized := true;
      lookup := map[];
      lookup, raised := FillTable(members);
    }

    /** `from_str` on the class, building the table on the first lookup that needs it. */
    method FromStr(v: Value, raise: bool) returns (r: Result<Option<nat>, Error>)
      requires Valid()
      modifies this
      ensures Valid()
      ensures r == Resolve.FromStr(members, v, raise)
      ensures !LooksUp(v, raise) ==> unchanged(this)
      ensures old(initialized) ==> unchanged(this)
      ensures initialized <==> old(initialized) || (LooksUp(v, raise) && BuildTable(members).Ok?)
      ensures !initialized ==> unchanged(this)
    {
      if v.EnumMember? {
        return Ok(Some(v.index));
      }
      if v.Null? && !raise {
        return Ok(None);
      }
      if !v.Text? && raise {
        return Err(NotAString);
      }
      var raised := InitializeLookup();
      if raised.Some? {
        return Err(raised.value);
      }
      r := LookupText(lookup, StrOf(v), raise);
    }

    /**
     * `from_str` over the as-written initialiser: once a build has raised, the
     * partial table answers every later lookup.
     */
    method FromStrAsWritten(v: Value, raise: bool) returns (r: Result<Option<nat>, Error>)
      requires Cached()
      modifies this
      ensures Cached()
      ensures !LooksUp(v, raise) ==> unchanged(this)
      ensures old(initialized) ==> unchanged(this)
      ensures initialized <==> old(initialized) || LooksUp(v, raise)
      ensures v.EnumMember? ==> r == Ok(Some(v.index))
      ensures v.Null? && !raise ==> r == Ok(None)
      ensures !v.EnumMember? && !LooksUp(v, raise) && raise ==> r == Err(NotAString)
      ensures LooksUp(v, raise) && (old(initialized) || FillPrefix(Registrations(members), |members|).raised.None?) ==>
        r == LookupText(lookup, StrOf(v), raise)
      ensures LooksUp(v, raise) && !old(initialized) && FillPrefix(Registrations(members), |members|).raised.Some? ==>
        r == Err(FillPrefix(Registrations(members), |members|).raised.value)
    {
      if v.EnumMember? {
        return Ok(Some(v.index));
      }
      if v.Null? && !raise {
        return Ok(None);
      }
      if !v.Text? && raise {
        return Err(NotAString);
      }
      var raised := InitializeLookupAsWritten();
      if raised.Some? {
        return Err(raised.value);
      }
      r := LookupText(lookup, StrOf(v), raise);
    }
  }

  /** Two members that normalise alike: `A_B` and `AB`. */
  function Clashing(): seq<Member>
  {
    [Member("A_B", []), Member("AB", [])]
  }

  /** The fill over `A_B`, `AB` inserts "ab" for `A_B`, then raises on `AB`. */
  lemma ClashingFill()
    ensures Normalize("AB") == "ab"
    ensures FillPrefix(Registrations(Clashing()), 2) == Fill(map["ab" := 0], Some(Collision("AB", "ab")))
    ensures BuildTable(Clashing()) == Err(Collision("AB", "ab"))
  {
    assert Normalize("A_B") == "ab" by {
      assert "A_B"[1..] == "_B" && "_B"[1..] == "B" && "B"[1..] == [];
    }
    assert Normalize("AB") == "ab" by {
      assert "AB"[1..] == "B" && "B"[1..] == [];
    }
    var rs := Registrations(Clashing());
    assert rs[0] == Registration("A_B", "ab", None, []);
    assert rs[1] == Registration("AB", "ab", None, []);
    assert FillPrefix(rs, 1) == Fill(map["ab" := 0], None);
  }

  /**
   * As written, the first `from_str("AB")` raises the collision, but the second
   * finds `A_B`, a different member, in the table the failed build left behind.
   */
  method PartialTableAfterCollision() returns (first: Result<Option<nat>, Error>, second: Result<Option<nat>, Error>)
    ensures first == Err(Collision("AB", "ab"))
    ensures second == Ok(Some(0))
  {
    ClashingFill();
    var e := new AutoEnum(Clashing());
    first := e.FromStrAsWritten(Text("AB"), true);
    assert e.initialized && e.lookup == map["ab" := 0];
    second := e.FromStrAsWritten(Text("AB"), true);
  }

  /** With the corrected initialiser the collision is raised on every lookup. */
  method CollisionRaisedEveryTime() returns (first: Result<Option<nat>, Error>, second: Result<Option<nat>, Error>)
    ensures first == Err(Collision("AB", "ab"))
    ensures second == first
  {
    ClashingFill();
    var e := new AutoEnum(Clashing());
    first := e.FromStr(Text("AB"), true);
    second := e.FromStr(Text("AB"), true);
  }
}
