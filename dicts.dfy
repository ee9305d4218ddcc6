/**
 * Python dicts as the converters use them: entries in insertion order, keys
 * distinct. Keys compare as values do; a member of the class and the string of
 * its name are different keys (members compare by identity).
 */
module Dicts {
  import opened Members

  datatype Entry = Entry(key: Value, val: Value)

  type Dict = seq<Entry>

  function Keys(d: Dict): seq<Value>
  {
    seq(|d|, j requires 0 <= j < |d| => d[j].key)
  }

  function Vals(d: Dict): seq<Value>
  {
    seq(|d|, j requires 0 <= j < |d| => d[j].val)
  }

  predicate HasKey(d: Dict, k: Value)
  {
    exists j :: 0 <= j < |d| && d[j].key == k
  }

  predicate DistinctKeys(d: Dict)
  {
    forall i, j :: 0 <= i < j < |d| ==> d[i].key != d[j].key
  }

  /** `d[k] = v`: an existing key keeps its place and takes the new value; a new key is appended. */
  function Put(d: Dict, k: Value, v: Value): (r: Dict)
    requires DistinctKeys(d)
    ensures DistinctKeys(r)
  {
    if HasKey(d, k) then
      seq(|d|, j requires 0 <= j < |d| => if d[j].key == k then Entry(k, v) else d[j])
    else
      d + [Entry(k, v)]
  }

  /**
   * After `d[k] = v`, k maps to v and the keys are those of d and k; every other
   * entry keeps its key, its value and its place, and a new key comes last.
   */
  lemma PutSpec(d: Dict, k: Value, v: Value)
    requires DistinctKeys(d)
    ensures Entry(k, v) in Put(d, k, v)
    ensures HasKey(d, k) ==> |Put(d, k, v)| == |d|
    ensures !HasKey(d, k) ==> Put(d, k, v) == d + [Entry(k, v)]
    ensures forall j :: 0 <= j < |d| && d[j].key != k ==> Put(d, k, v)[j] == d[j]
    ensures forall j :: 0 <= j < |Put(d, k, v)| && Put(d, k, v)[j].key == k ==> Put(d, k, v)[j].val == v
    ensures forall x :: HasKey(Put(d, k, v), x) <==> HasKey(d, x) || x == k
  {
    var r := Put(d, k, v);
    if HasKey(d, k) {
      var i :| 0 <= i < |d| && d[i].key == k;
      assert r[i] == Entry(k, v);
      forall x | HasKey(d, x) ensures HasKey(r, x) {
        var j :| 0 <= j < |d| && d[j].key == x;
        assert r[j].key == x;
      }
    } else {
      assert r[|d|] == Entry(k, v);
      forall x | HasKey(d, x) ensures HasKey(r, x) {
        var j :| 0 <= j < |d| && d[j].key == x;
        assert r[j].key == x;
      }
      forall x | HasKey(r, x) ensures HasKey(d, x) || x == k {
        var j :| 0 <= j < |r| && r[j].key == x;
        if j < |d| {
          assert d[j].key == x;
        }
      }
    }
  }

  /** `out = {}; for k, v in zip(ks, vs): out[k] = v`. */
  function FromEntries(ks: seq<Value>, vs: seq<Value>): (d: Dict)
    requires |ks| == |vs|
    ensures DistinctKeys(d)
  {
    if ks == [] then []
    else Put(FromEntries(ks[..|ks| - 1], vs[..|vs| - 1]), ks[|ks| - 1], vs[|vs| - 1])
  }

  /** One more write on top of a rebuilt dict. */
  lemma FromEntriesSnoc(ks: seq<Value>, vs: seq<Value>, k: Value, v: Value)
    requires |ks| == |vs|
    ensures FromEntries(ks + [k], vs + [v]) == Put(FromEntries(ks, vs), k, v)
  {
    assert (ks + [k])[..|ks|] == ks;
    assert (vs + [v])[..|vs|] == vs;
  }

  lemma KeysValsPrefix(d: Dict, i: nat)
    requires i < |d|
    ensures Keys(d)[..i + 1] == Keys(d)[..i] + [d[i].key]
    ensures Vals(d)[..i + 1] == Vals(d)[..i] + [d[i].val]
  {
  }

  /** The dict with the entries ks[j]: vs[j], side by side. */
  function Zip(ks: seq<Value>, vs: seq<Value>): Dict
    requires |ks| == |vs|
  {
    seq(|ks|, j requires 0 <= j < |ks| => Entry(ks[j], vs[j]))
  }

  /** The dict built by successive writes holds exactly the keys written. */
  lemma {:induction false} FromEntriesKeys(ks: seq<Value>, vs: seq<Value>)
    requires |ks| == |vs|
    ensures forall k :: HasKey(FromEntries(ks, vs), k) <==> k in ks
  {
    if ks != [] {
      var n := |ks| - 1;
      FromEntriesKeys(ks[..n], vs[..n]);
      PutSpec(FromEntries(ks[..n], vs[..n]), ks[n], vs[n]);
      assert ks == ks[..n] + [ks[n]];
    }
  }

  /** For every key, the dict keeps the value written last under it. */
  lemma {:induction false} FromEntriesLastWins(ks: seq<Value>, vs: seq<Value>, j: nat)
    requires |ks| == |vs| && j < |ks|
    requires forall i :: j < i < |ks| ==> ks[i] != ks[j]
    ensures Entry(ks[j], vs[j]) in FromEntries(ks, vs)
  {
    var n := |ks| - 1;
    var d := FromEntries(ks, vs);
    if j < n {
      FromEntriesLastWins(ks[..n], vs[..n], j);
      var before := FromEntries(ks[..n], vs[..n]);
      var i :| 0 <= i < |before| && before[i] == Entry(ks[j], vs[j]);
      if HasKey(before, ks[n]) {
        assert d[i] == before[i];
      } else {
        assert d[i] == before[i];
      }
    } else {
      PutSpec(FromEntries(ks[..n], vs[..n]), ks[n], vs[n]);
    }
  }

  /** Writing distinct keys one after the other gives the entries side by side, in order. */
  lemma {:induction false} FromEntriesDistinct(ks: seq<Value>, vs: seq<Value>)
    requires |ks| == |vs|
    requires forall i, j :: 0 <= i < j < |ks| ==> ks[i] != ks[j]
    ensures FromEntries(ks, vs) == Zip(ks, vs)
  {
    if ks != [] {
      var n := |ks| - 1;
      FromEntriesDistinct(ks[..n], vs[..n]);
      var before := Zip(ks[..n], vs[..n]);
      assert !HasKey(before, ks[n]) by {
        forall j | 0 <= j < |before| ensures before[j].key != ks[n] {
          assert before[j].key == ks[j];
        }
      }
      assert Zip(ks, vs) == before + [Entry(ks[n], vs[n])];
    }
  }

  /** A Python dict never holds a key twice, so its keys, written again in order, rebuild it. */
  lemma RebuildDistinct(d: Dict, vs: seq<Value>)
    requires DistinctKeys(d) && |vs| == |d|
    ensures FromEntries(Keys(d), vs) == Zip(Keys(d), vs)
    ensures |FromEntries(Keys(d), vs)| == |d|
    ensures forall j :: 0 <= j < |d| ==> FromEntries(Keys(d), vs)[j] == Entry(d[j].key, vs[j])
  {
    FromEntriesDistinct(Keys(d), vs);
  }
}
