/**
 * The lookup table of an AutoEnum class (`_value2member_map_normalized_`):
 * normalised key -> member index, filled member by member in declaration order
 * with a running collision check.
 *
 * The build first derives from each member the keys it registers (its
 * `Registration`); `FillPrefix` is the table after the first n members together
 * with the error raised on the way, if any; `FillTable` is the loop that fills
 * it; `Admissible` states, without replaying the fill, when it succeeds.
 */
module Lookup {
  import opened Wrappers
  import opened Normalization
  import opened Members

  /**
   * What one member brings to the table: its name and the name's key, the key
   * of its alias-list value when it is aliased, and each alias with its key.
   */
  datatype Registration = Registration(
    name: string,
    key: string,
    composite: Option<string>,
    aliases: seq<(string, string)>)

  function Register(m: Member): Registration
  {
    Registration(
      m.name,
      Normalize(m.name),
      if m.aliases == [] then None else Some(Normalize(AliasValue(m.aliases))),
      seq(|m.aliases|, k requires 0 <= k < |m.aliases| => (m.aliases[k], Normalize(m.aliases[k]))))
  }

  function Registrations(ms: seq<Member>): seq<Registration>
  {
    seq(|ms|, i requires 0 <= i < |ms| => Register(ms[i]))
  }

  /** The dict as it stands, and the error raised while filling it (None: no error). */
  datatype Fill = Fill(table: map<string, nat>, raised: Option<Error>)

  /** The table once the member's name and, if it is aliased, its composite key are in. */
  function WithName(t: map<string, nat>, r: Registration, index: nat): map<string, nat>
  {
    var t1 := t[r.key := index];
    if r.composite.Some? then t1[r.composite.value := index] else t1
  }

  /** The first k aliases of member `index` put into t, each skipped, rejected or inserted. */
  function AddAliases(t: map<string, nat>, r: Registration, index: nat, k: nat): Fill
    requires k <= |r.aliases|
  {
    if k == 0 then Fill(t, None)
    else
      var f := AddAliases(t, r, index, k - 1);
      var (alias, key) := r.aliases[k - 1];
      if f.raised.Some? || key == r.key then f
      else if key in f.table then Fill(f.table, Some(Collision(alias, key)))
      else Fill(f.table[key := index], None)
  }

  /** One member registered: its name checked and inserted, then its composite key and aliases. */
  function AddMember(t: map<string, nat>, r: Registration, index: nat): Fill
  {
    if r.key in t then Fill(t, Some(Collision(r.name, r.key)))
    else AddAliases(WithName(t, r, index), r, index, |r.aliases|)
  }

  /** The table after the first n members, stopping at the first error. */
  function FillPrefix(rs: seq<Registration>, n: nat): Fill
    requires n <= |rs|
  {
    if n == 0 then Fill(map[], None)
    else
      var f := FillPrefix(rs, n - 1);
      if f.raised.Some? then f else AddMember(f.table, rs[n - 1], n - 1)
  }

  /** The whole build: the finished table, or the collision it raises. */
  function BuildTable(ms: seq<Member>): Result<map<string, nat>, Error>
  {
    var f := FillPrefix(Registrations(ms), |ms|);
    if f.raised.Some? then Err(f.raised.value) else Ok(f.table)
  }

  // ---------------------------------------------------------------------------
  // The keys of a member, and when a declaration is admissible.

  function AliasKeys(r: Registration, k: nat): set<string>
    requires k <= |r.aliases|
  {
    set l | 0 <= l < k :: r.aliases[l].1
  }

  function CompositeKeys(r: Registration): set<string>
  {
    if r.composite.Some? then {r.composite.value} else {}
  }

  /** Every key a member puts into the table. */
  function KeysOf(r: Registration): set<string>
  {
    {r.key} + CompositeKeys(r) + AliasKeys(r, |r.aliases|)
  }

  /** The keys through which a caller reaches the member: its name and its aliases. */
  function ResolvableKeys(r: Registration): set<string>
  {
    {r.key} + AliasKeys(r, |r.aliases|)
  }

  function KeysBefore(rs: seq<Registration>, n: nat): set<string>
    requires n <= |rs|
  {
    if n == 0 then {} else KeysBefore(rs, n - 1) + KeysOf(rs[n - 1])
  }

  /** Alias l is the member's name again, or is new among `keys` and the member's earlier aliases. */
  predicate AliasFits(keys: set<string>, r: Registration, l: nat)
    requires l < |r.aliases|
  {
    var key := r.aliases[l].1;
    key == r.key || key !in keys + AliasKeys(r, l)
  }

  /** Every alias of r fits over a table holding `keys`, the member's own name and composite key. */
  predicate AliasesFit(keys: set<string>, r: Registration)
  {
    forall l :: 0 <= l < |r.aliases| ==> AliasFits(keys + {r.key} + CompositeKeys(r), r, l)
  }

  predicate MemberFits(rs: seq<Registration>, j: nat)
    requires j < |rs|
  {
    rs[j].key !in KeysBefore(rs, j) && AliasesFit(KeysBefore(rs, j), rs[j])
  }

  predicate AllFit(rs: seq<Registration>, n: nat)
    requires n <= |rs|
  {
    forall j :: 0 <= j < n ==> MemberFits(rs, j)
  }

  /** No member's name, and no alias, clashes with a key registered before it. */
  predicate Admissible(ms: seq<Member>)
  {
    AllFit(Registrations(ms), |ms|)
  }

  // ---------------------------------------------------------------------------
  // The fill, step by step.

  lemma {:induction false} AddAliasesSpec(t: map<string, nat>, r: Registration, index: nat, k: nat)
    requires k <= |r.aliases|
    requires r.key in t
    ensures var f := AddAliases(t, r, index, k);
      && (f.raised.None? <==> forall l :: 0 <= l < k ==> AliasFits(t.Keys, r, l))
      && (f.raised.None? ==> f.table.Keys == t.Keys + AliasKeys(r, k))
      && (f.raised.None? ==> forall x :: x in t ==> f.table[x] == t[x])
      && (f.raised.None? ==> forall x :: x in f.table && x !in t ==> f.table[x] == index)
  {
    if k == 0 {
      assert AliasKeys(r, 0) == {};
    } else {
      AddAliasesSpec(t, r, index, k - 1);
      var f' := AddAliases(t, r, index, k - 1);
      var key := r.aliases[k - 1].1;
      assert AliasKeys(r, k) == AliasKeys(r, k - 1) + {key};
      if f'.raised.None? {
        assert AliasFits(t.Keys, r, k - 1) <==> key == r.key || key !in f'.table;
      } else {
        assert !AliasFits(t.Keys, r, k - 1) || exists l :: 0 <= l < k - 1 && !AliasFits(t.Keys, r, l);
      }
    }
  }

  lemma AddMemberFits(t: map<string, nat>, r: Registration, index: nat)
    ensures var f := AddMember(t, r, index);
      && (f.raised.None? <==> r.key !in t && AliasesFit(t.Keys, r))
      && (f.raised.None? ==> f.table.Keys == t.Keys + KeysOf(r))
  {
    if r.key !in t {
      var t1 := WithName(t, r, index);
      assert t1.Keys == t.Keys + {r.key} + CompositeKeys(r);
      AddAliasesSpec(t1, r, index, |r.aliases|);
    }
  }

  lemma AddMemberValues(t: map<string, nat>, r: Registration, index: nat)
    requires AddMember(t, r, index).raised.None?
    ensures var f := AddMember(t, r, index);
      && f.table.Keys == t.Keys + KeysOf(r)
      && (forall x :: x in t && x !in CompositeKeys(r) ==> f.table[x] == t[x])
      && (forall x :: x in f.table ==> f.table[x] == index || (x in t && f.table[x] == t[x]))
      && (forall x :: x in CompositeKeys(r) ==> f.table[x] == index)
      && (forall x :: x in ResolvableKeys(r) ==> f.table[x] == index)
  {
    var f := AddMember(t, r, index);
    var t1 := WithName(t, r, index);
    assert t1.Keys == t.Keys + {r.key} + CompositeKeys(r);
    AddAliasesSpec(t1, r, index, |r.aliases|);
    forall x | x in ResolvableKeys(r) ensures f.table[x] == index {
      if x != r.key {
        var l :| 0 <= l < |r.aliases| && x == r.aliases[l].1;
        assert AliasFits(t1.Keys, r, l);
      }
    }
  }

  lemma {:induction false} FillPrefixSpec(rs: seq<Registration>, n: nat)
    requires n <= |rs|
    ensures FillPrefix(rs, n).raised.None? <==> AllFit(rs, n)
    ensures FillPrefix(rs, n).raised.None? ==> FillPrefix(rs, n).table.Keys == KeysBefore(rs, n)
  {
    if n > 0 {
      FillPrefixSpec(rs, n - 1);
      FillPrefixSpecStep(rs, n);
    }
  }

  /** The inductive step of FillPrefixSpec. */
  lemma FillPrefixSpecStep(rs: seq<Registration>, n: nat)
    requires 0 < n <= |rs|
    requires FillPrefix(rs, n - 1).raised.None? <==> AllFit(rs, n - 1)
    requires FillPrefix(rs, n - 1).raised.None? ==> FillPrefix(rs, n - 1).table.Keys == KeysBefore(rs, n - 1)
    ensures FillPrefix(rs, n).raised.None? <==> AllFit(rs, n)
    ensures FillPrefix(rs, n).raised.None? ==> FillPrefix(rs, n).table.Keys == KeysBefore(rs, n)
  {
    AllFitStep(rs, n);
    if FillPrefix(rs, n - 1).raised.None? {
      FillPrefixStep(rs, n);
    } else {
      FillPrefixStops(rs, n - 1, n);
    }
  }

  /** One more member over a fill that has not raised: it raises exactly when that member does not fit. */
  lemma FillPrefixStep(rs: seq<Registration>, n: nat)
    requires 0 < n <= |rs|
    requires FillPrefix(rs, n - 1).raised.None?
    requires FillPrefix(rs, n - 1).table.Keys == KeysBefore(rs, n - 1)
    ensures FillPrefix(rs, n).raised.None? <==> MemberFits(rs, n - 1)
    ensures FillPrefix(rs, n).raised.None? ==> FillPrefix(rs, n).table.Keys == KeysBefore(rs, n)
  {
    AddMemberFits(FillPrefix(rs, n - 1).table, rs[n - 1], n - 1);
  }

  lemma AllFitStep(rs: seq<Registration>, n: nat)
    requires 0 < n <= |rs|
    ensures AllFit(rs, n) <==> AllFit(rs, n - 1) && MemberFits(rs, n - 1)
  {
  }

  lemma {:induction false} FillPrefixValues(rs: seq<Registration>, n: nat)
    requires n <= |rs|
    requires FillPrefix(rs, n).raised.None?
    ensures forall x :: x in FillPrefix(rs, n).table ==> FillPrefix(rs, n).table[x] < n
  {
    if n > 0 {
      var f := FillPrefix(rs, n - 1);
      FillPrefixValues(rs, n - 1);
      var g := AddMember(f.table, rs[n - 1], n - 1);
      forall x | x in g.table ensures g.table[x] < n {
        AddMemberValues(f.table, rs[n - 1], n - 1);
      }
    }
  }

  /** Once an error is raised, the rest of the members are never looked at. */
  lemma {:induction false} FillPrefixStops(rs: seq<Registration>, n: nat, n': nat)
    requires n <= n' <= |rs|
    requires FillPrefix(rs, n).raised.Some?
    ensures FillPrefix(rs, n') == FillPrefix(rs, n)
  {
    if n' > n {
      FillPrefixStops(rs, n, n' - 1);
    }
  }

  lemma {:induction false} AddAliasesStops(t: map<string, nat>, r: Registration, index: nat, k: nat, k': nat)
    requires k <= k' <= |r.aliases|
    requires AddAliases(t, r, index, k).raised.Some?
    ensures AddAliases(t, r, index, k') == AddAliases(t, r, index, k)
  {
    if k' > k {
      AddAliasesStops(t, r, index, k, k' - 1);
    }
  }

  /** Every error the fill raises is a collision. */
  lemma {:induction false} AddAliasesRaisesCollision(t: map<string, nat>, r: Registration, index: nat, k: nat)
    requires k <= |r.aliases|
    ensures AddAliases(t, r, index, k).raised.Some? ==> AddAliases(t, r, index, k).raised.value.Collision?
  {
    if k > 0 {
      AddAliasesRaisesCollision(t, r, index, k - 1);
    }
  }

  lemma {:induction false} FillPrefixRaisesCollision(rs: seq<Registration>, n: nat)
    requires n <= |rs|
    ensures FillPrefix(rs, n).raised.Some? ==> FillPrefix(rs, n).raised.value.Collision?
  {
    if n > 0 {
      FillPrefixRaisesCollision(rs, n - 1);
      var f := FillPrefix(rs, n - 1);
      var r := rs[n - 1];
      if f.raised.None? && r.key !in f.table {
        AddAliasesRaisesCollision(WithName(f.table, r, n - 1), r, n - 1, |r.aliases|);
      }
    }
  }

  lemma {:induction false} KeysBeforeHolds(rs: seq<Registration>, i: nat, n: nat)
    requires i < n <= |rs|
    ensures KeysOf(rs[i]) <= KeysBefore(rs, n)
  {
    if n - 1 > i {
      KeysBeforeHolds(rs, i, n - 1);
    }
  }

  lemma {:induction false} FillPrefixResolves(rs: seq<Registration>, n: nat, i: nat, x: string)
    requires i < n <= |rs|
    requires FillPrefix(rs, n).raised.None?
    requires x in ResolvableKeys(rs[i])
    requires forall j :: i < j < n ==> x !in CompositeKeys(rs[j])
    ensures x in FillPrefix(rs, n).table && FillPrefix(rs, n).table[x] == i
  {
    var f := FillPrefix(rs, n - 1);
    assert f.raised.None?;
    AddMemberValues(f.table, rs[n - 1], n - 1);
    if n - 1 > i {
      FillPrefixResolves(rs, n - 1, i, x);
    }
  }

  lemma {:induction false} FillPrefixCompositeLater(rs: seq<Registration>, n: nat, j: nat, x: string)
    requires j < n <= |rs|
    requires FillPrefix(rs, n).raised.None?
    requires x in CompositeKeys(rs[j])
    ensures x in FillPrefix(rs, n).table && FillPrefix(rs, n).table[x] >= j
  {
    var f := FillPrefix(rs, n - 1);
    assert f.raised.None?;
    AddMemberValues(f.table, rs[n - 1], n - 1);
    if n - 1 > j {
      FillPrefixCompositeLater(rs, n - 1, j, x);
    }
  }

  // ---------------------------------------------------------------------------
  // What a successful build guarantees, and what makes a build fail.

  /** The key of every spelling of a member: its name and each of its aliases. */
  function SpellingKeys(m: Member): set<string>
  {
    {Normalize(m.name)} + set a | a in m.aliases :: Normalize(a)
  }

  /** Every key a member registers: its spellings' keys and, if aliased, its alias-list value's key. */
  function RegisteredKeys(m: Member): set<string>
  {
    SpellingKeys(m) + if m.aliases == [] then {} else {Normalize(AliasValue(m.aliases))}
  }

  lemma RegisterKeys(m: Member)
    ensures ResolvableKeys(Register(m)) == SpellingKeys(m)
    ensures KeysOf(Register(m)) == RegisteredKeys(m)
    ensures CompositeKeys(Register(m)) == if m.aliases == [] then {} else {Normalize(AliasValue(m.aliases))}
  {
    var r := Register(m);
    assert AliasKeys(r, |r.aliases|) == set a | a in m.aliases :: Normalize(a) by {
      forall x | x in set a | a in m.aliases :: Normalize(a) ensures x in AliasKeys(r, |r.aliases|) {
        var a :| a in m.aliases && x == Normalize(a);
        var l :| 0 <= l < |m.aliases| && m.aliases[l] == a;
        assert r.aliases[l].1 == x;
      }
      forall x | x in AliasKeys(r, |r.aliases|) ensures x in set a | a in m.aliases :: Normalize(a) {
        var l :| 0 <= l < |r.aliases| && x == r.aliases[l].1;
        assert m.aliases[l] in m.aliases;
      }
    }
  }

  /** The build succeeds exactly when the declaration is admissible, and then holds every key of every member. */
  lemma BuildTableAdmissible(ms: seq<Member>)
    ensures BuildTable(ms).Ok? <==> Admissible(ms)
    ensures BuildTable(ms).Ok? ==> BuildTable(ms).value.Keys == KeysBefore(Registrations(ms), |ms|)
    ensures BuildTable(ms).Ok? ==> forall x :: x in BuildTable(ms).value ==> BuildTable(ms).value[x] < |ms|
    ensures BuildTable(ms).Err? ==> BuildTable(ms).error.Collision?
  {
    FillPrefixSpec(Registrations(ms), |ms|);
    FillPrefixRaisesCollision(Registrations(ms), |ms|);
    if BuildTable(ms).Ok? {
      FillPrefixValues(Registrations(ms), |ms|);
    }
  }

  /**
   * After a successful build, the name and every alias of member i are keys
   * mapped to i, unless a later member's alias-list value overwrote that key.
   */
  lemma BuildMapsSpellingsToMember(ms: seq<Member>, i: nat, x: string)
    requires BuildTable(ms).Ok?
    requires i < |ms| && x in SpellingKeys(ms[i])
    requires forall j :: i < j < |ms| && ms[j].aliases != [] ==> Normalize(AliasValue(ms[j].aliases)) != x
    ensures x in BuildTable(ms).value && BuildTable(ms).value[x] == i
  {
    var rs := Registrations(ms);
    RegisterKeys(ms[i]);
    forall j | i < j < |ms| ensures x !in CompositeKeys(rs[j]) {
      RegisterKeys(ms[j]);
    }
    FillPrefixResolves(rs, |ms|, i, x);
  }

  /** A name made of identifier characters is never overwritten, so it always maps to its member. */
  lemma BuildMapsNameToMember(ms: seq<Member>, i: nat)
    requires BuildTable(ms).Ok?
    requires i < |ms|
    requires forall k :: 0 <= k < |ms[i].name| ==> IsIdentChar(ms[i].name[k])
    ensures Normalize(ms[i].name) in BuildTable(ms).value
    ensures BuildTable(ms).value[Normalize(ms[i].name)] == i
  {
    forall j | i < j < |ms| && ms[j].aliases != []
      ensures Normalize(AliasValue(ms[j].aliases)) != Normalize(ms[i].name)
    {
      AliasValueKeyNotIdentifierKey(ms[j].aliases, ms[i].name);
    }
    BuildMapsSpellingsToMember(ms, i, Normalize(ms[i].name));
  }

  /**
   * The alias-list value is put into the table with no collision check: when
   * an alias of member i normalises like the alias-list value of a later
   * member j, a successful build maps it to j or a later member, never to i.
   */
  lemma CompositeKeyOverwrites(ms: seq<Member>, i: nat, j: nat, a: string)
    requires BuildTable(ms).Ok?
    requires i < j < |ms| && a in ms[i].aliases && ms[j].aliases != []
    requires Normalize(a) == Normalize(AliasValue(ms[j].aliases))
    ensures Normalize(a) in BuildTable(ms).value
    ensures BuildTable(ms).value[Normalize(a)] >= j > i
  {
    RegisterKeys(ms[j]);
    FillPrefixCompositeLater(Registrations(ms), |ms|, j, Normalize(a));
  }

  lemma FitKeysDisjoint(rs: seq<Registration>, lo: nat, hi: nat)
    requires lo < hi < |rs|
    requires AllFit(rs, |rs|)
    ensures ResolvableKeys(rs[lo]) !! ResolvableKeys(rs[hi])
  {
    KeysBeforeHolds(rs, lo, hi);
    assert MemberFits(rs, hi);
    forall x | x in ResolvableKeys(rs[lo]) ensures x !in ResolvableKeys(rs[hi]) {
      assert x in KeysBefore(rs, hi) && x != rs[hi].key;
      forall l | 0 <= l < |rs[hi].aliases| ensures rs[hi].aliases[l].1 != x {
        assert AliasFits(KeysBefore(rs, hi) + {rs[hi].key} + CompositeKeys(rs[hi]), rs[hi], l);
      }
    }
  }

  /** After a successful build, no two members share the key of a name or alias. */
  lemma BuildKeysDisjoint(ms: seq<Member>, i: nat, j: nat)
    requires BuildTable(ms).Ok?
    requires i < |ms| && j < |ms| && i != j
    ensures SpellingKeys(ms[i]) !! SpellingKeys(ms[j])
  {
    BuildTableAdmissible(ms);
    RegisterKeys(ms[i]);
    RegisterKeys(ms[j]);
    if i < j {
      FitKeysDisjoint(Registrations(ms), i, j);
    } else {
      FitKeysDisjoint(Registrations(ms), j, i);
    }
  }

  /** A name that normalises to a key an earlier member registered makes the build fail. */
  lemma NameCollisionRejected(ms: seq<Member>, i: nat, j: nat)
    requires i < j < |ms|
    requires Normalize(ms[j].name) in RegisteredKeys(ms[i])
    ensures BuildTable(ms).Err?
  {
    var rs := Registrations(ms);
    BuildTableAdmissible(ms);
    RegisterKeys(ms[i]);
    KeysBeforeHolds(rs, i, j);
    assert !MemberFits(rs, j);
  }

  /**
   * An alias that is not the member's own name again, and that normalises to a
   * key an earlier member registered, makes the build fail.
   */
  lemma AliasCollisionRejected(ms: seq<Member>, i: nat, j: nat, l: nat)
    requires i < j < |ms| && l < |ms[j].aliases|
    requires Normalize(ms[j].aliases[l]) != Normalize(ms[j].name)
    requires Normalize(ms[j].aliases[l]) in RegisteredKeys(ms[i])
    ensures BuildTable(ms).Err?
  {
    var rs := Registrations(ms);
    BuildTableAdmissible(ms);
    RegisterKeys(ms[i]);
    KeysBeforeHolds(rs, i, j);
    assert !AliasFits(KeysBefore(rs, j) + {rs[j].key} + CompositeKeys(rs[j]), rs[j], l);
    assert !MemberFits(rs, j);
  }

  // ---------------------------------------------------------------------------
  // The loop of `_initialize_lookup`.

  /**
   * Fills a fresh dict member by member in declaration order; on a collision it
   * stops and hands back the dict as filled so far together with the error.
   */
  method FillTable(ms: seq<Member>) returns (table: map<string, nat>, raised: Option<Error>)
    ensures Fill(table, raised) == FillPrefix(Registrations(ms), |ms|)
  {
    var filled := Fill(map[], None);
    for i := 0 to |ms|
      invariant filled == FillPrefix(Registrations(ms), i) && filled.raised.None?
    {
      filled := FillStep(ms, i, filled.table);
      if filled.raised.Some? {
        FillPrefixStops(Registrations(ms), i + 1, |ms|);
        return filled.table, filled.raised;
      }
    }
    return filled.table, None;
  }

  /** The outer loop's body: member i registered on top of the table the members before it filled. */
  method FillStep(ms: seq<Member>, i: nat, before: map<string, nat>) returns (after: Fill)
    requires i < |ms|
    requires FillPrefix(Registrations(ms), i) == Fill(before, None)
    ensures after == FillPrefix(Registrations(ms), i + 1)
  {
    var t, e := RegisterMember(before, ms[i], i);
    after := Fill(t, e);
  }

  /**
   * One pass of the outer loop: member `index`'s name is checked and inserted,
   * then its alias-list value, then its aliases.
   */
  method RegisterMember(before: map<string, nat>, e: Member, index: nat)
    returns (table: map<string, nat>, raised: Option<Error>)
    ensures Fill(table, raised) == AddMember(before, Register(e), index)
  {
    var key := Normalize(e.name);
    if key in before {
      return before, Some(Collision(e.name, key));
    }
    table := before[key := index];
    if e.aliases != [] {
      table := table[Normalize(AliasValue(e.aliases)) := index];
    }
    var filled := InsertAliases(table, e, index);
    return filled.table, filled.raised;
  }

  /** The inner loop: each alias that is not the member's name again is checked and inserted. */
  method InsertAliases(start: map<string, nat>, e: Member, index: nat) returns (filled: Fill)
    ensures filled == AddAliases(start, Register(e), index, |e.aliases|)
  {
    ghost var r := Register(e);
    var key := Normalize(e.name);
    filled := Fill(start, None);
    for j := 0 to |e.aliases|
      invariant filled == AddAliases(start, r, index, j) && filled.raised.None?
    {
      var aliasKey := Normalize(e.aliases[j]);
      assert r.aliases[j] == (e.aliases[j], aliasKey);
      if aliasKey != key {
        if aliasKey in filled.table {
          AddAliasesStops(start, r, index, j + 1, |r.aliases|);
          return Fill(filled.table, Some(Collision(e.aliases[j], aliasKey)));
        }
        filled := Fill(filled.table[aliasKey := index], None);
      }
    }
  }
}
