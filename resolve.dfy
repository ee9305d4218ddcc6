/**
 * `from_str` and the predicates built on it, over the table the build produces.
 * Resolution is stated here against a build that publishes its table only when
 * it succeeds; `AutoEnumType` models the cached class state, including the
 * cache the source leaves behind after a failed build.
 */
module Resolve {
  import opened Wrappers
  import opened Normalization
  import opened Members
  import opened Lookup

  /** `str(v)` of an input that is not a member of the class. */
  function StrOf(v: Value): string
    requires !v.EnumMember?
  {
    match v
    case Text(s) => s
    case Object(text) => text
    case Null => "None"
  }

  /** The dict lookup of `from_str`: the member stored under the input's key, if any. */
  function LookupText(table: map<string, nat>, text: string, raise: bool): (r: Result<Option<nat>, Error>)
    ensures r.Ok? && r.value.Some? <==> Normalize(text) in table
    ensures r.Ok? && r.value.Some? ==> r.value.value == table[Normalize(text)]
    ensures r.Err? <==> raise && Normalize(text) !in table
    ensures r.Err? ==> r.error == NotFound(text)
  {
    var key := Normalize(text);
    if key in table then Ok(Some(table[key]))
    else if raise then Err(NotFound(text))
    else Ok(None)
  }

  /**
   * The inputs `from_str` looks up in the table: a string, and, when lenient,
   * any object that is neither a member nor `None` (its `str()` is looked up).
   */
  predicate LooksUp(v: Value, raise: bool)
  {
    v.Text? || (v.Object? && !raise)
  }

  /**
   * `from_str(v, raise_error=raise)`: a member of the class is returned as it is;
   * `None` is returned for `None` when lenient; a strict call rejects any other
   * non-string; everything else is looked up by its normalised `str()`, which
   * first builds the table and so raises whatever the build raises.
   */
  function FromStr(ms: seq<Member>, v: Value, raise: bool): (r: Result<Option<nat>, Error>)
    ensures v.EnumMember? ==> r == Ok(Some(v.index))
    ensures v.Null? && !raise ==> r == Ok(None)
    ensures LooksUp(v, raise) && BuildTable(ms).Ok? ==> r == LookupText(BuildTable(ms).value, StrOf(v), raise)
    ensures LooksUp(v, raise) && BuildTable(ms).Err? ==> r == Err(BuildTable(ms).error)
    ensures r.Err? && !raise ==> r.error.Collision? && BuildTable(ms).Err?
    ensures r.Ok? && r.value.None? ==> !raise
    ensures r.Err? && r.error.NotAString? <==> raise && (v.Null? || v.Object?)
    ensures r.Err? && r.error.NotFound? ==> raise && v.Text? && r.error.input == v.s
    ensures r.Err? && r.error.Collision? ==> BuildTable(ms) == Err(r.error)
  {
    BuildTableAdmissible(ms);
    if v.EnumMember? then Ok(Some(v.index))
    else if v.Null? && !raise then Ok(None)
    else if !v.Text? && raise then Err(NotAString)
    else match BuildTable(ms)
      case Err(e) => Err(e)
      case Ok(table) => LookupText(table, StrOf(v), raise)
  }

  /** A value that is, or names, one of the members `ms` declares. */
  predicate InRange(ms: seq<Member>, v: Value)
  {
    v.EnumMember? ==> v.index < |ms|
  }

  /** `m.matches(v)`: the lenient lookup of v is member i itself. */
  function Matches(ms: seq<Member>, i: nat, v: Value): (r: Result<bool, Error>)
    ensures r.Err? <==> FromStr(ms, v, false).Err?
    ensures r.Ok? ==> (r.value <==> FromStr(ms, v, false) == Ok(Some(i)))
  {
    match FromStr(ms, v, false)
    case Err(e) => Err(e)
    case Ok(found) => Ok(found == Some(i))
  }

  /** `matches_any(v)`: the lenient lookup of v finds some member. */
  function MatchesAny(ms: seq<Member>, v: Value): (r: Result<bool, Error>)
    ensures r.Err? <==> FromStr(ms, v, false).Err?
    ensures r.Ok? ==> (r.value <==> FromStr(ms, v, false).value.Some?)
  {
    match FromStr(ms, v, false)
    case Err(e) => Err(e)
    case Ok(found) => Ok(found.Some?)
  }

  /** `does_not_match_any(v)`: the negation of `matches_any`, raising when it raises. */
  function DoesNotMatchAny(ms: seq<Member>, v: Value): (r: Result<bool, Error>)
    ensures r.Err? <==> MatchesAny(ms, v).Err?
    ensures r.Ok? ==> r.value == !MatchesAny(ms, v).value
  {
    match MatchesAny(ms, v)
    case Err(e) => Err(e)
    case Ok(b) => Ok(!b)
  }

  // ---------------------------------------------------------------------------
  // What resolution guarantees.

  /** Whatever `from_str` returns is a member of the class. */
  lemma FromStrInRange(ms: seq<Member>, v: Value, raise: bool)
    requires InRange(ms, v)
    ensures var r := FromStr(ms, v, raise);
      r.Ok? && r.value.Some? ==> r.value.value < |ms|
  {
    BuildTableAdmissible(ms);
  }

  /**
   * Two strings with the same normalised form resolve alike: to the same member,
   * or both to nothing; a strict miss names the input it was given.
   */
  lemma FromStrDependsOnKeyOnly(ms: seq<Member>, s: string, t: string, raise: bool)
    requires Normalize(s) == Normalize(t)
    ensures FromStr(ms, Text(s), false) == FromStr(ms, Text(t), false)
    ensures FromStr(ms, Text(s), raise).Ok? <==> FromStr(ms, Text(t), raise).Ok?
    ensures FromStr(ms, Text(s), raise).Ok? ==> FromStr(ms, Text(s), raise) == FromStr(ms, Text(t), raise)
  {
  }

  /**
   * Two strings that differ only in the case of their letters resolve alike, in
   * both modes (a strict miss names the input it was given).
   */
  lemma FromStrCaseInsensitive(ms: seq<Member>, s: string, t: string, raise: bool)
    requires Lower(s) == Lower(t)
    ensures FromStr(ms, Text(s), false) == FromStr(ms, Text(t), false)
    ensures FromStr(ms, Text(s), raise).Ok? <==> FromStr(ms, Text(t), raise).Ok?
    ensures FromStr(ms, Text(s), raise).Ok? ==> FromStr(ms, Text(s), raise) == FromStr(ms, Text(t), raise)
  {
    NormalizeIgnoresCase(s, t);
    FromStrDependsOnKeyOnly(ms, s, t, raise);
  }

  /** Inserting a separator anywhere in a string never changes what it resolves to, in both modes. */
  lemma FromStrIgnoresSeparator(ms: seq<Member>, a: string, b: string, c: char, raise: bool)
    requires IsRemoved(c)
    ensures FromStr(ms, Text(a + [c] + b), false) == FromStr(ms, Text(a + b), false)
    ensures FromStr(ms, Text(a + [c] + b), raise).Ok? <==> FromStr(ms, Text(a + b), raise).Ok?
    ensures FromStr(ms, Text(a + [c] + b), raise).Ok? ==> FromStr(ms, Text(a + [c] + b), raise) == FromStr(ms, Text(a + b), raise)
  {
    NormalizeAppend(a + [c], b);
    NormalizeAppend(a, [c]);
    NormalizeAppend(a, b);
    assert Normalize([c]) == [] by {
      assert [c][1..] == [];
    }
    FromStrDependsOnKeyOnly(ms, a + [c] + b, a + b, raise);
  }

  /** A strict lookup finds what a lenient one finds, and raises `NotFound` where it finds nothing. */
  lemma StrictAgreesWithLenient(ms: seq<Member>, s: string)
    ensures var lenient, strict := FromStr(ms, Text(s), false), FromStr(ms, Text(s), true);
      && (lenient.Ok? && lenient.value.Some? ==> strict == lenient)
      && (lenient == Ok(None) ==> strict == Err(NotFound(s)))
      && (lenient.Err? ==> strict == lenient)
  {
  }

  /**
   * After a successful build, the member's name and each of its aliases resolve
   * to it, in both modes, unless a later member's alias-list value has the same
   * key (that key is inserted without a collision check and overwrites).
   */
  lemma FromStrFindsSpelling(ms: seq<Member>, i: nat, s: string, raise: bool)
    requires BuildTable(ms).Ok?
    requires i < |ms| && (s == ms[i].name || s in ms[i].aliases)
    requires forall j :: i < j < |ms| && ms[j].aliases != [] ==> Normalize(AliasValue(ms[j].aliases)) != Normalize(s)
    ensures FromStr(ms, Text(s), raise) == Ok(Some(i))
  {
    BuildMapsSpellingsToMember(ms, i, Normalize(s));
  }

  /** A member whose name is a Python identifier is always found under its name. */
  lemma FromStrFindsName(ms: seq<Member>, i: nat, raise: bool)
    requires BuildTable(ms).Ok?
    requires i < |ms|
    requires forall k :: 0 <= k < |ms[i].name| ==> IsIdentChar(ms[i].name[k])
    ensures FromStr(ms, Text(ms[i].name), raise) == Ok(Some(i))
  {
    BuildMapsNameToMember(ms, i);
  }

  /** `matches_any` holds exactly when some member `matches`. */
  lemma MatchesAnyIffSomeMatches(ms: seq<Member>, v: Value)
    requires InRange(ms, v)
    ensures MatchesAny(ms, v) == Ok(true) <==> exists i :: 0 <= i < |ms| && Matches(ms, i, v) == Ok(true)
  {
    var found := FromStr(ms, v, false);
    if MatchesAny(ms, v) == Ok(true) {
      FromStrInRange(ms, v, false);
      assert Matches(ms, found.value.value, v) == Ok(true);
    }
  }

  /**
   * Under a successful build, a member's name or alias is matched by that member
   * and by no other, unless a later member's alias-list key is the same.
   */
  lemma OnlyOwnerMatchesSpelling(ms: seq<Member>, i: nat, j: nat, s: string)
    requires BuildTable(ms).Ok?
    requires i < |ms| && (s == ms[i].name || s in ms[i].aliases)
    requires forall k :: i < k < |ms| && ms[k].aliases != [] ==> Normalize(AliasValue(ms[k].aliases)) != Normalize(s)
    ensures Matches(ms, i, Text(s)) == Ok(true)
    ensures j != i ==> Matches(ms, j, Text(s)) == Ok(false)
    ensures DoesNotMatchAny(ms, Text(s)) == Ok(false)
  {
    FromStrFindsSpelling(ms, i, s, false);
  }
}
