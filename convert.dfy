/**
 * The `convert_*` class methods: each walks a container and builds a new one,
 * replacing every string that resolves to a member by that member ("resolve or
 * keep"), or every member by its name. Each lookup goes through `from_str`, so a
 * failed build of the lookup table surfaces as the converter's error as soon as
 * a string item is met.
 */
module Convert {
  import opened Wrappers
  import opened Normalization
  import opened Members
  import opened Lookup
  import opened Resolve
  import opened Dicts

  /**
   * "Resolve or keep" on one item: a `str` (a member of the class is one too)
   * that the lenient `from_str` resolves becomes that member; anything else is
   * kept as it is.
   */
  function ResolveItem(ms: seq<Member>, v: Value): (r: Result<Value, Error>)
    ensures r.Err? <==> v.Text? && BuildTable(ms).Err?
    ensures r.Err? ==> BuildTable(ms) == Err(r.error)
    ensures r.Ok? && r.value != v ==> v.Text? && r.value.EnumMember? && FromStr(ms, v, false) == Ok(Some(r.value.index))
    ensures r.Ok? && v.Text? && FromStr(ms, v, false) != Ok(None) ==> r.value == EnumMember(FromStr(ms, v, false).value.value)
  {
    if v.Text? || v.EnumMember? then
      match FromStr(ms, v, false)
      case Err(e) => Err(e)
      case Ok(None) => Ok(v)
      case Ok(Some(i)) => Ok(EnumMember(i))
    else Ok(v)
  }

  /** `str(v)` for a member of the class, which becomes its name; anything else is kept. */
  function StrItem(ms: seq<Member>, v: Value): (r: Value)
    requires InRange(ms, v)
    ensures !r.EnumMember?
    ensures r != v ==> v.EnumMember? && r == Text(ms[v.index].name)
  {
    match v
    case EnumMember(i) => Text(ms[i].name)
    case _ => v
  }

  /** "Resolve or keep" on every item, in order; the first failure stops it. */
  function ResolveAll(ms: seq<Member>, xs: seq<Value>): (r: Result<seq<Value>, Error>)
    ensures r.Ok? <==> forall j :: 0 <= j < |xs| ==> ResolveItem(ms, xs[j]).Ok?
    ensures r.Ok? ==> |r.value| == |xs| && forall j :: 0 <= j < |xs| ==> ResolveItem(ms, xs[j]) == Ok(r.value[j])
    ensures r.Err? ==> BuildTable(ms) == Err(r.error)
  {
    if xs == [] then Ok([])
    else
      match ResolveAll(ms, xs[..|xs| - 1])
      case Err(e) => Err(e)
      case Ok(out) =>
        match ResolveItem(ms, xs[|xs| - 1])
        case Err(e) => Err(e)
        case Ok(y) => Ok(out + [y])
  }

  function StrAll(ms: seq<Member>, xs: seq<Value>): seq<Value>
    requires forall j :: 0 <= j < |xs| ==> InRange(ms, xs[j])
  {
    seq(|xs|, j requires 0 <= j < |xs| => StrItem(ms, xs[j]))
  }

  /** The containers `convert_values` accepts, and anything else. */
  datatype Container =
    | DictOf(d: Dict)
    | ListOf(items: seq<Value>)
    | TupleOf(items: seq<Value>)
    | SetOf(elems: set<Value>)
    | Other(v: Value)

  // ---------------------------------------------------------------------------
  // The converters.

  /** One item of `convert_list`/`convert_set`: `matches_any` first, then the strict `from_str`. */
  method ConvertItem(ms: seq<Member>, item: Value) returns (r: Result<Value, Error>)
    ensures r == ResolveItem(ms, item)
  {
    if item.Text? || item.EnumMember? {
      var any := MatchesAny(ms, item);
      if any.Err? {
        return Err(any.error);
      }
      if any.value {
        if item.Text? {
          StrictAgreesWithLenient(ms, item.s);
        }
        var found := FromStr(ms, item, true);
        return Ok(EnumMember(found.value.value));
      }
    }
    r := Ok(item);
  }

  /** `convert_list` (and the list inside `tuple(...)`): same length and order, each item resolved or kept. */
  method ConvertList(ms: seq<Member>, l: seq<Value>) returns (r: Result<seq<Value>, Error>)
    ensures r == ResolveAll(ms, l)
  {
    var out: seq<Value> := [];
    for i := 0 to |l|
      invariant ResolveAll(ms, l[..i]) == Ok(out)
    {
      assert l[..i + 1][..i] == l[..i];
      var y := ConvertItem(ms, l[i]);
      if y.Err? {
        assert ResolveItem(ms, l[i]).Err?;
        return Err(y.error);
      }
      out := out + [y.value];
    }
    assert l[..|l|] == l;
    r := Ok(out);
  }

  /** `convert_set`: the set of the items, each resolved or kept. */
  method ConvertSet(ms: seq<Member>, s: set<Value>) returns (r: Result<set<Value>, Error>)
    ensures r.Err? <==> BuildTable(ms).Err? && exists x :: x in s && x.Text?
    ensures r.Err? ==> BuildTable(ms) == Err(r.error)
    ensures r.Ok? ==> r.value == set x | x in s && ResolveItem(ms, x).Ok? :: ResolveItem(ms, x).value
    ensures r.Ok? ==> forall x :: x in s ==> ResolveItem(ms, x).Ok?
  {
    var out: set<Value> := {};
    var rest := s;
    while rest != {}
      invariant rest <= s
      invariant forall x :: x in s - rest ==> ResolveItem(ms, x).Ok?
      invariant out == set x | x in s - rest && ResolveItem(ms, x).Ok? :: ResolveItem(ms, x).value
      decreases rest
    {
      var item :| item in rest;
      var y := ConvertItem(ms, item);
      if y.Err? {
        return Err(y.error);
      }
      out := out + {y.value};
      rest := rest - {item};
    }
    assert s - rest == s;
    r := Ok(out);
  }

  /** One key or value of the dict converters: the lenient `from_str`, used when it finds a member. */
  method LookupItem(ms: seq<Member>, item: Value) returns (r: Result<Value, Error>)
    ensures r == ResolveItem(ms, item)
  {
    if item.Text? || item.EnumMember? {
      var found := FromStr(ms, item, false);
      if found.Err? {
        return Err(found.error);
      }
      if found.value.Some? {
        return Ok(EnumMember(found.value.value));
      }
    }
    r := Ok(item);
  }

  /** A prefix that resolves, extended by an item that resolves. */
  lemma ResolveAllSnoc(ms: seq<Member>, xs: seq<Value>, x: Value, out: seq<Value>, y: Value)
    requires ResolveAll(ms, xs) == Ok(out) && ResolveItem(ms, x) == Ok(y)
    ensures ResolveAll(ms, xs + [x]) == Ok(out + [y])
  {
    assert (xs + [x])[..|xs|] == xs;
  }

  /** An item that fails makes the whole walk fail. */
  lemma ResolveAllFailsAt(ms: seq<Member>, xs: seq<Value>, i: nat)
    requires i < |xs| && ResolveItem(ms, xs[i]).Err?
    ensures ResolveAll(ms, xs).Err?
  {
  }

  /** `convert_keys`: every key resolved or kept, each with its value, later writes winning. */
  method ConvertKeys(ms: seq<Member>, d: Dict) returns (r: Result<Dict, Error>)
    ensures r.Err? <==> ResolveAll(ms, Keys(d)).Err?
    ensures r.Err? ==> BuildTable(ms) == Err(r.error)
    ensures r.Ok? ==> r.value == FromEntries(ResolveAll(ms, Keys(d)).value, Vals(d))
  {
    var out: Dict := [];
    ghost var ks: seq<Value> := [];
    for i := 0 to |d|
      invariant ResolveAll(ms, Keys(d)[..i]) == Ok(ks)
      invariant out == FromEntries(ks, Vals(d)[..i])
    {
      var key := LookupItem(ms, d[i].key);
      KeysValsPrefix(d, i);
      if key.Err? {
        assert ResolveItem(ms, Keys(d)[i]).Err?;
        ResolveAllFailsAt(ms, Keys(d), i);
        return Err(key.error);
      }
      assert ResolveAll(ms, Keys(d)[..i + 1]) == Ok(ks + [key.value]) by {
        ResolveAllSnoc(ms, Keys(d)[..i], d[i].key, ks, key.value);
      }
      FromEntriesSnoc(ks, Vals(d)[..i], key.value, d[i].val);
      out := Put(out, key.value, d[i].val);
      ks := ks + [key.value];
    }
    assert Keys(d)[..|d|] == Keys(d);
    assert Vals(d)[..|d|] == Vals(d);
    r := Ok(out);
  }

  /** `convert_keys_to_str`: every member key replaced by its name, each with its value, later writes winning. */
  method ConvertKeysToStr(ms: seq<Member>, d: Dict) returns (r: Dict)
    requires forall j :: 0 <= j < |d| ==> InRange(ms, d[j].key)
    ensures r == FromEntries(StrAll(ms, Keys(d)), Vals(d))
  {
    r := [];
    for i := 0 to |d|
      invariant r == FromEntries(StrAll(ms, Keys(d)[..i]), Vals(d)[..i])
    {
      var key := if d[i].key.EnumMember? then Text(ms[d[i].key.index].name) else d[i].key;
      KeysValsPrefix(d, i);
      assert StrAll(ms, Keys(d)[..i + 1]) == StrAll(ms, Keys(d)[..i]) + [key];
      FromEntriesSnoc(StrAll(ms, Keys(d)[..i]), Vals(d)[..i], key, d[i].val);
      r := Put(r, key, d[i].val);
    }
    assert Keys(d)[..|d|] == Keys(d);
    assert Vals(d)[..|d|] == Vals(d);
  }

  /** `convert_dict_values`: every value resolved or kept, under its key. */
  method ConvertDictValues(ms: seq<Member>, d: Dict) returns (r: Result<Dict, Error>)
    ensures r.Err? <==> ResolveAll(ms, Vals(d)).Err?
    ensures r.Err? ==> BuildTable(ms) == Err(r.error)
    ensures r.Ok? ==> r.value == FromEntries(Keys(d), ResolveAll(ms, Vals(d)).value)
  {
    var out: Dict := [];
    ghost var vs: seq<Value> := [];
    for i := 0 to |d|
      invariant ResolveAll(ms, Vals(d)[..i]) == Ok(vs)
      invariant out == FromEntries(Keys(d)[..i], vs)
    {
      var val := LookupItem(ms, d[i].val);
      KeysValsPrefix(d, i);
      if val.Err? {
        ResolveAllFailsAt(ms, Vals(d), i);
        return Err(val.error);
      }
      ResolveAllSnoc(ms, Vals(d)[..i], d[i].val, vs, val.value);
      FromEntriesSnoc(Keys(d)[..i], vs, d[i].key, val.value);
      out := Put(out, d[i].key, val.value);
      vs := vs + [val.value];
    }
    assert Keys(d)[..|d|] == Keys(d);
    assert Vals(d)[..|d|] == Vals(d);
    r := Ok(out);
  }

  /** `convert_values_to_str`: every member value replaced by its name, under its key. */
  method ConvertValuesToStr(ms: seq<Member>, d: Dict) returns (r: Dict)
    requires forall j :: 0 <= j < |d| ==> InRange(ms, d[j].val)
    ensures r == FromEntries(Keys(d), StrAll(ms, Vals(d)))
  {
    r := [];
    for i := 0 to |d|
      invariant r == FromEntries(Keys(d)[..i], StrAll(ms, Vals(d)[..i]))
    {
      var val := if d[i].val.EnumMember? then Text(ms[d[i].val.index].name) else d[i].val;
      KeysValsPrefix(d, i);
      assert StrAll(ms, Vals(d)[..i + 1]) == StrAll(ms, Vals(d)[..i]) + [val];
      FromEntriesSnoc(Keys(d)[..i], StrAll(ms, Vals(d)[..i]), d[i].key, val);
      r := Put(r, d[i].key, val);
    }
    assert Keys(d)[..|d|] == Keys(d);
    assert Vals(d)[..|d|] == Vals(d);
  }

  /**
   * `convert_values`: dispatches on the kind of container; anything else is
   * returned as it is, or rejected when `raise_error` is set.
   */
  method ConvertValues(ms: seq<Member>, c: Container, raise: bool) returns (r: Result<Container, Error>)
    ensures c.Other? ==> r == if raise then Err(UnsupportedContainer) else Ok(c)
    ensures c.DictOf? ==> r.Err? == ResolveAll(ms, Vals(c.d)).Err?
    ensures c.DictOf? && r.Ok? ==> r.value == DictOf(FromEntries(Keys(c.d), ResolveAll(ms, Vals(c.d)).value))
    ensures c.ListOf? ==> r == (match ResolveAll(ms, c.items) case Ok(l) => Ok(ListOf(l)) case Err(e) => Err(e))
    ensures c.TupleOf? ==> r == (match ResolveAll(ms, c.items) case Ok(l) => Ok(TupleOf(l)) case Err(e) => Err(e))
    ensures c.SetOf? ==> (r.Err? <==> BuildTable(ms).Err? && exists x :: x in c.elems && x.Text?)
    ensures c.SetOf? && r.Ok? ==> r.value == SetOf(set x | x in c.elems && ResolveItem(ms, x).Ok? :: ResolveItem(ms, x).value)
    ensures r.Err? && !c.Other? ==> BuildTable(ms) == Err(r.error)
  {
    match c
    case DictOf(d) =>
      var out := ConvertDictValues(ms, d);
      r := if out.Ok? then Ok(DictOf(out.value)) else Err(out.error);
    case ListOf(items) =>
      var out := ConvertList(ms, items);
      r := if out.Ok? then Ok(ListOf(out.value)) else Err(out.error);
    case TupleOf(items) =>
      var out := ConvertList(ms, items);
      r := if out.Ok? then Ok(TupleOf(out.value)) else Err(out.error);
    case SetOf(elems) =>
      var out := ConvertSet(ms, elems);
      r := if out.Ok? then Ok(SetOf(out.value)) else Err(out.error);
    case Other(_) =>
      r := if raise then Err(UnsupportedContainer) else Ok(c);
  }

  // ---------------------------------------------------------------------------
  // What the converters guarantee.

  /** Member names that are Python identifiers, as every declared member's is. */
  predicate IdentifierNames(ms: seq<Member>)
  {
    forall i, k :: 0 <= i < |ms| && 0 <= k < |ms[i].name| ==> IsIdentChar(ms[i].name[k])
  }

  /** A walk fails exactly when the table cannot be built and some item is a string needing a lookup. */
  lemma ResolveAllFails(ms: seq<Member>, xs: seq<Value>)
    ensures ResolveAll(ms, xs).Err? <==> BuildTable(ms).Err? && exists j :: 0 <= j < |xs| && xs[j].Text?
  {
    if BuildTable(ms).Err? && exists j :: 0 <= j < |xs| && xs[j].Text? {
      var j :| 0 <= j < |xs| && xs[j].Text?;
      assert ResolveItem(ms, xs[j]).Err?;
    }
  }

  /** Resolving an item that has already been resolved changes nothing. */
  lemma ResolveItemIdempotent(ms: seq<Member>, v: Value)
    requires ResolveItem(ms, v).Ok?
    ensures ResolveItem(ms, ResolveItem(ms, v).value) == ResolveItem(ms, v)
  {
  }

  /** Converting a converted list again gives the same list. */
  lemma ResolveAllIdempotent(ms: seq<Member>, xs: seq<Value>)
    requires ResolveAll(ms, xs).Ok?
    ensures ResolveAll(ms, ResolveAll(ms, xs).value) == ResolveAll(ms, xs)
  {
    var ys := ResolveAll(ms, xs).value;
    forall j | 0 <= j < |ys| ensures ResolveItem(ms, ys[j]) == Ok(ys[j]) {
      ResolveItemIdempotent(ms, xs[j]);
    }
    assert ResolveAll(ms, ys).value == ys;
  }

  /**
   * After a successful build, turning members into their names and resolving
   * again gives what resolving alone gives: the name of a member resolves to it.
   */
  lemma StrThenResolveItem(ms: seq<Member>, v: Value)
    requires BuildTable(ms).Ok? && IdentifierNames(ms) && InRange(ms, v)
    ensures ResolveItem(ms, StrItem(ms, v)) == ResolveItem(ms, v)
  {
    if v.EnumMember? {
      FromStrFindsName(ms, v.index, false);
    }
  }

  lemma StrThenResolveAll(ms: seq<Member>, xs: seq<Value>)
    requires BuildTable(ms).Ok? && IdentifierNames(ms)
    requires forall j :: 0 <= j < |xs| ==> InRange(ms, xs[j])
    ensures ResolveAll(ms, StrAll(ms, xs)) == ResolveAll(ms, xs)
  {
    var strs := StrAll(ms, xs);
    forall j | 0 <= j < |xs| ensures ResolveItem(ms, strs[j]) == ResolveItem(ms, xs[j]) {
      StrThenResolveItem(ms, xs[j]);
    }
    assert ResolveAll(ms, strs).value == ResolveAll(ms, xs).value;
  }

  /** `convert_dict_values` keeps every key in its place and converts the value beside it. */
  lemma DictValuesInPlace(ms: seq<Member>, d: Dict)
    requires DistinctKeys(d) && ResolveAll(ms, Vals(d)).Ok?
    ensures var r := FromEntries(Keys(d), ResolveAll(ms, Vals(d)).value);
      |r| == |d| && forall j :: 0 <= j < |d| ==> r[j].key == d[j].key && ResolveItem(ms, d[j].val) == Ok(r[j].val)
  {
    RebuildDistinct(d, ResolveAll(ms, Vals(d)).value);
  }

  /**
   * After a successful build, `convert_dict_values(convert_values_to_str(d))`
   * equals `convert_dict_values(d)`.
   */
  lemma ValuesToStrRoundTrip(ms: seq<Member>, d: Dict)
    requires BuildTable(ms).Ok? && IdentifierNames(ms) && DistinctKeys(d)
    requires forall j :: 0 <= j < |d| ==> InRange(ms, d[j].val)
    ensures var e := FromEntries(Keys(d), StrAll(ms, Vals(d)));
      ResolveAll(ms, Vals(e)) == ResolveAll(ms, Vals(d))
      && FromEntries(Keys(e), ResolveAll(ms, Vals(e)).value) == FromEntries(Keys(d), ResolveAll(ms, Vals(d)).value)
  {
    var e := FromEntries(Keys(d), StrAll(ms, Vals(d)));
    RebuildDistinct(d, StrAll(ms, Vals(d)));
    assert Keys(e) == Keys(d);
    assert Vals(e) == StrAll(ms, Vals(d));
    StrThenResolveAll(ms, Vals(d));
  }

  /**
   * `convert_keys`: every converted key is in the result with the value of the
   * last entry converted to it; when no two keys convert alike, the entries stay
   * in place.
   */
  lemma ConvertedKeysLastWins(ms: seq<Member>, d: Dict, j: nat)
    requires ResolveAll(ms, Keys(d)).Ok? && j < |d|
    requires forall i :: j < i < |d| ==> ResolveAll(ms, Keys(d)).value[i] != ResolveAll(ms, Keys(d)).value[j]
    ensures Entry(ResolveAll(ms, Keys(d)).value[j], d[j].val) in FromEntries(ResolveAll(ms, Keys(d)).value, Vals(d))
  {
    FromEntriesLastWins(ResolveAll(ms, Keys(d)).value, Vals(d), j);
  }

  lemma ConvertedKeysInPlace(ms: seq<Member>, d: Dict)
    requires ResolveAll(ms, Keys(d)).Ok?
    requires forall i, j :: 0 <= i < j < |d| ==> ResolveAll(ms, Keys(d)).value[i] != ResolveAll(ms, Keys(d)).value[j]
    ensures var r := FromEntries(ResolveAll(ms, Keys(d)).value, Vals(d));
      |r| == |d| && forall j :: 0 <= j < |d| ==> r[j].val == d[j].val && ResolveItem(ms, d[j].key) == Ok(r[j].key)
  {
    var ks := ResolveAll(ms, Keys(d)).value;
    var r := FromEntries(ks, Vals(d));
    FromEntriesDistinct(ks, Vals(d));
    forall j | 0 <= j < |d| ensures r[j].val == d[j].val && ResolveItem(ms, d[j].key) == Ok(r[j].key) {
      assert r[j] == Entry(ks[j], Vals(d)[j]);
      assert ResolveItem(ms, Keys(d)[j]) == Ok(ks[j]);
    }
  }

  /**
   * `convert_keys_to_str` leaves no member key: the result's keys are exactly
   * the keys of d with each member replaced by its name.
   */
  lemma KeysToStrNames(ms: seq<Member>, d: Dict)
    requires forall j :: 0 <= j < |d| ==> InRange(ms, d[j].key)
    ensures forall j :: 0 <= j < |FromEntries(StrAll(ms, Keys(d)), Vals(d))| ==>
      !FromEntries(StrAll(ms, Keys(d)), Vals(d))[j].key.EnumMember?
    ensures forall j :: 0 <= j < |d| ==> HasKey(FromEntries(StrAll(ms, Keys(d)), Vals(d)), StrItem(ms, d[j].key))
  {
    var ks := StrAll(ms, Keys(d));
    var r := FromEntries(ks, Vals(d));
    FromEntriesKeys(ks, Vals(d));
    forall j | 0 <= j < |r| ensures !r[j].key.EnumMember? {
      assert HasKey(r, r[j].key);
      var i :| 0 <= i < |ks| && ks[i] == r[j].key;
    }
    forall j | 0 <= j < |d| ensures HasKey(r, StrItem(ms, d[j].key)) {
      assert ks[j] == StrItem(ms, d[j].key);
      assert ks[j] in ks;
    }
  }

  /**
   * `convert_keys_to_str(convert_keys(d))` gives d back when the keys are
   * distinct strings or other non-member values, every key that resolves is
   * spelled exactly as its member's name, and no two keys convert alike.
   */
  lemma KeysRoundTrip(ms: seq<Member>, d: Dict)
    requires DistinctKeys(d) && ResolveAll(ms, Keys(d)).Ok?
    requires forall j :: 0 <= j < |d| ==> !d[j].key.EnumMember?
    requires forall j :: 0 <= j < |d| && ResolveAll(ms, Keys(d)).value[j].EnumMember? ==>
      ResolveAll(ms, Keys(d)).value[j].index < |ms| ==> d[j].key == Text(ms[ResolveAll(ms, Keys(d)).value[j].index].name)
    requires forall i, j :: 0 <= i < j < |d| ==> ResolveAll(ms, Keys(d)).value[i] != ResolveAll(ms, Keys(d)).value[j]
    ensures var c := FromEntries(ResolveAll(ms, Keys(d)).value, Vals(d));
      && (forall j :: 0 <= j < |c| ==> InRange(ms, c[j].key))
      && FromEntries(StrAll(ms, Keys(c)), Vals(c)) == d
  {
    var ks := ResolveAll(ms, Keys(d)).value;
    var c := FromEntries(ks, Vals(d));
    FromEntriesDistinct(ks, Vals(d));
    assert Keys(c) == ks;
    assert Vals(c) == Vals(d);
    forall j | 0 <= j < |d| ensures InRange(ms, ks[j]) && StrItem(ms, ks[j]) == d[j].key {
      assert ResolveItem(ms, Keys(d)[j]) == Ok(ks[j]);
      FromStrInRange(ms, d[j].key, false);
    }
    assert StrAll(ms, Keys(c)) == Keys(d);
    RebuildDistinct(d, Vals(d));
  }
}
