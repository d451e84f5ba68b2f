/**
 * A key/value map that does not create its table until the first insertion.
 *
 * The hash table itself (a `HashMap` keyed through SeaHash) is represented by a
 * mathematical `map<K, V>`: keys are compared only by equality, and nothing about
 * buckets, hashing or growth is modelled.
 */
module LazyHashMaps {
  import opened Wrappers

  /** The keys of a sequence of entries. */
  function KeysOf<K, V>(s: seq<(K, V)>): set<K>
  {
    set i | 0 <= i < |s| :: s[i].0
  }

  /** No key occurs twice in `s`. */
  ghost predicate DistinctKeys<K, V>(s: seq<(K, V)>)
  {
    forall i, j :: 0 <= i < j < |s| ==> s[i].0 != s[j].0
  }

  /**
   * `s` lists every entry of `m` exactly once, in some order: each element is an
   * entry of `m`, no key is repeated, and every key of `m` appears.
   */
  ghost predicate EnumerationOf<K, V>(s: seq<(K, V)>, m: map<K, V>)
  {
    && DistinctKeys(s)
    && KeysOf(s) == m.Keys
    && forall i :: 0 <= i < |s| ==> s[i].0 in m && m[s[i].0] == s[i].1
  }

  lemma KeysOfConcat<K, V>(a: seq<(K, V)>, b: seq<(K, V)>)
    ensures KeysOf(a + b) == KeysOf(a) + KeysOf(b)
  {
    var ab := a + b;
    forall k | k in KeysOf(ab) ensures k in KeysOf(a) + KeysOf(b) {
      var i :| 0 <= i < |ab| && ab[i].0 == k;
      if i < |a| { assert ab[i] == a[i]; } else { assert ab[i] == b[i - |a|]; }
    }
    forall k | k in KeysOf(a) + KeysOf(b) ensures k in KeysOf(ab) {
      if k in KeysOf(a) {
        var i :| 0 <= i < |a| && a[i].0 == k;
        assert ab[i] == a[i];
      } else {
        var i :| 0 <= i < |b| && b[i].0 == k;
        assert ab[|a| + i] == b[i];
      }
    }
  }

  lemma KeysOfSingleton<K, V>(e: (K, V))
    ensures KeysOf([e]) == {e.0}
  {
    assert [e][0] == e;
  }

  /** A sequence without repeated keys has as many elements as it has keys. */
  lemma {:induction false} DistinctKeysCount<K, V>(s: seq<(K, V)>)
    requires DistinctKeys(s)
    ensures |KeysOf(s)| == |s|
  {
    if s != [] {
      var rest := s[1..];
      assert s == [s[0]] + rest;
      KeysOfConcat([s[0]], rest);
      KeysOfSingleton(s[0]);
      forall i | 0 <= i < |rest| ensures rest[i].0 != s[0].0 {
        assert s[i + 1] == rest[i];
      }
      assert DistinctKeys(rest) by {
        forall i, j | 0 <= i < j < |rest| ensures rest[i].0 != rest[j].0 {
          assert rest[i] == s[i + 1] && rest[j] == s[j + 1];
        }
      }
      DistinctKeysCount(rest);
    }
  }

  /** An enumeration of a map is exactly as long as the map is large. */
  lemma EnumerationLength<K, V>(s: seq<(K, V)>, m: map<K, V>)
    requires EnumerationOf(s, m)
    ensures |s| == |m|
  {
    DistinctKeysCount(s);
    assert |m| == |m.Keys|;
  }

  /**
   * When `a + b` enumerates `m`, the part `b` not yet reached enumerates the entries
   * of `m` whose keys are not in `a`.
   */
  lemma SuffixEnumerates<K, V>(a: seq<(K, V)>, b: seq<(K, V)>, m: map<K, V>)
    requires EnumerationOf(a + b, m)
    ensures EnumerationOf(b, m - KeysOf(a))
  {
    var ab := a + b;
    KeysOfConcat(a, b);
    forall i, j | 0 <= i < j < |b| ensures b[i].0 != b[j].0 {
      assert b[i] == ab[|a| + i] && b[j] == ab[|a| + j];
    }
    forall i, j | 0 <= i < |a| && 0 <= j < |b| ensures a[i].0 != b[j].0 {
      assert ab[i] == a[i] && ab[|a| + j] == b[j];
    }
    forall i | 0 <= i < |b| ensures b[i].0 in m && m[b[i].0] == b[i].1 {
      assert b[i] == ab[|a| + i];
    }
  }

  /**
   * Producing the first entry of the part `rest` not yet reached: that entry is one
   * of the remaining entries, it is removed from them, and the enumeration is kept.
   */
  lemma CursorStep<K, V>(produced: seq<(K, V)>, rest: seq<(K, V)>, m: map<K, V>)
    requires EnumerationOf(produced + rest, m)
    requires rest != []
    ensures EnumerationOf((produced + [rest[0]]) + rest[1..], m)
    ensures rest[0].0 in m - KeysOf(produced)
    ensures (m - KeysOf(produced))[rest[0].0] == rest[0].1
    ensures m - KeysOf(produced + [rest[0]]) == (m - KeysOf(produced)) - {rest[0].0}
  {
    assert (produced + [rest[0]]) + rest[1..] == produced + rest;
    SuffixEnumerates(produced, rest, m);
    assert rest[0].0 in KeysOf(rest);
    KeysOfConcat(produced, [rest[0]]);
    KeysOfSingleton(rest[0]);
  }

  /**
   * Lists the entries of `m` in an order this model leaves open: the order in which
   * the underlying hash table's iterator visits its buckets.
   */
  method Entries<K, V>(m: map<K, V>) returns (s: seq<(K, V)>)
    ensures EnumerationOf(s, m)
  {
    s := [];
    var unvisited := m.Keys;
    while unvisited != {}
      invariant unvisited <= m.Keys
      invariant KeysOf(s) == m.Keys - unvisited
      invariant DistinctKeys(s)
      invariant forall i :: 0 <= i < |s| ==> s[i].0 in m && m[s[i].0] == s[i].1
      decreases unvisited
    {
      var k :| k in unvisited;
      KeysOfConcat(s, [(k, m[k])]);
      KeysOfSingleton((k, m[k]));
      s := s + [(k, m[k])];
      unvisited := unvisited - {k};
    }
  }

  /**
   * The map. `table` is `None` until the first insertion and `Some` from then on;
   * its logical contents are `Contents()`.
   */
  class LazyHashMap<K(==), V> {
    var table: Option<map<K, V>>

    /** What the map holds: nothing without a table, otherwise the table's entries. */
    ghost function Contents(): map<K, V>
      reads this
    {
      match table
      case None => map[]
      case Some(t) => t
    }

    /** A new map has no table and holds nothing. */
    constructor ()
      ensures table == None
      ensures Contents() == map[]
    {
      table := None;
    }

    /** Whether `key` has an entry; never creates a table. */
    function ContainsKey(key: K): (present: bool)
      reads this
      ensures present <==> key in Contents()
      ensures table == None ==> !present
    {
      match table
      case None => false
      case Some(t) => key in t
    }

    /** The value stored for `key`, if any; never creates a table. */
    function Get(key: K): (r: Option<V>)
      reads this
      ensures r.Some? <==> key in Contents()
      ensures r.Some? ==> r.value == Contents()[key]
      ensures r.Some? <==> ContainsKey(key)
      ensures table == None ==> r == None
    {
      match table
      case None => None
      case Some(t) => if key in t then Some(t[key]) else None
    }

    /**
     * Stores `val` under `key` and returns what was stored there before. Creates an
     * empty table first if there is none; an existing table is kept.
     */
    method Insert(key: K, val: V) returns (previous: Option<V>)
      modifies this
      ensures table.Some?
      ensures old(table).Some? ==> table == Some(old(table).value[key := val])
      ensures Contents() == old(Contents())[key := val]
      ensures previous == old(Get(key))
      ensures old(table) == None ==> previous == None
      ensures Get(key) == Some(val)
    {
      match table {
        case Some(t) => table := Some(t);
        case None => table := Some(map[]);
      }
      var t := table.value;
      previous := if key in t then Some(t[key]) else None;
      table := Some(t[key := val]);
    }

    /** A fresh cursor over the current entries; with no table it yields nothing. */
    method Iter() returns (it: Iter<K, V>)
      ensures fresh(it)
      ensures it.Valid()
      ensures it.source == Contents() && it.yielded == []
      ensures it.Remaining() == Contents()
      ensures table == None ==> it.cursor == None && it.SizeHint() == (0, Some(0))
    {
      match table {
        case None =>
          it := new Iter(None, map[]);
        case Some(t) =>
          var entries := Entries(t);
          it := new Iter(Some(entries), t);
      }
    }
  }

  /**
   * A cursor over a map's entries. `cursor` is `None` when the map had no table;
   * otherwise it holds the entries still to come. The ghost fields record the
   * entries the cursor started from and those it has already produced.
   */
  class Iter<K(==), V> {
    var cursor: Option<seq<(K, V)>>
    ghost var source: map<K, V>
    ghost var yielded: seq<(K, V)>

    ghost predicate Valid()
      reads this
    {
      match cursor
      case None => source == map[] && yielded == []
      case Some(rest) => EnumerationOf(yielded + rest, source)
    }

    /** The entries of `source` that have not been produced yet. */
    ghost function Remaining(): map<K, V>
      reads this
    {
      source - KeysOf(yielded)
    }

    constructor (cursor: Option<seq<(K, V)>>, ghost source: map<K, V>)
      requires cursor == None ==> source == map[]
      requires cursor.Some? ==> EnumerationOf(cursor.value, source)
      ensures Valid()
      ensures this.cursor == cursor && this.source == source && yielded == []
      ensures Remaining() == source
    {
      this.cursor := cursor;
      this.source := source;
      yielded := [];
      assert KeysOf<K, V>([]) == {};
      assert cursor.Some? ==> [] + cursor.value == cursor.value;
    }

    /**
     * Produces the next entry. Every entry of `source` is produced exactly once; after
     * the last one, and always when there was no table, the result is `None`.
     */
    method Next() returns (item: Option<(K, V)>)
      requires Valid()
      modifies this
      ensures Valid()
      ensures source == old(source)
      ensures item == None <==> old(Remaining()) == map[]
      ensures item == None ==> cursor == old(cursor) && yielded == old(yielded)
      ensures item.Some? ==>
        && item.value.0 in old(Remaining())
        && old(Remaining())[item.value.0] == item.value.1
        && Remaining() == old(Remaining()) - {item.value.0}
        && yielded == old(yielded) + [item.value]
    {
      match cursor {
        case None =>
          item := None;
        case Some(rest) =>
          if rest == [] {
            assert yielded + rest == yielded;
            item := None;
          } else {
            var entry := rest[0];
            CursorStep(yielded, rest, source);
            item := Some(entry);
            cursor := Some(rest[1..]);
            yielded := yielded + [entry];
          }
      }
    }

    /**
     * Bounds on how many entries are still to come: `(0, Some(0))` without a table,
     * otherwise exactly the number of entries not yet produced.
     */
    function SizeHint(): (hint: (nat, Option<nat>))
      reads this
      requires Valid()
      ensures cursor == None ==> hint == (0, Some(0))
      ensures hint.0 == |Remaining()| && hint.1 == Some(hint.0)
    {
      match cursor
      case None => (0, Some(0))
      case Some(rest) =>
        SuffixEnumerates(yielded, rest, source);
        EnumerationLength(rest, source - KeysOf(yielded));
        (|rest|, Some(|rest|))
    }
  }

  /**
   * Entries drawn without repeating a key from `m`, once nothing of `m` is left
   * undrawn, list all of `m` and are as many as `m` has entries.
   */
  lemma CollectedAll<K, V>(out: seq<(K, V)>, m: map<K, V>)
    requires DistinctKeys(out)
    requires forall i :: 0 <= i < |out| ==> out[i].0 in m && m[out[i].0] == out[i].1
    requires m - KeysOf(out) == map[]
    ensures EnumerationOf(out, m)
    ensures |out| == |m|
  {
    forall k | k in KeysOf(out) ensures k in m {
      var i :| 0 <= i < |out| && out[i].0 == k;
    }
    forall k | k in m ensures k in KeysOf(out) {
      assert k !in m - KeysOf(out);
    }
    EnumerationLength(out, m);
  }

  /**
   * Runs a cursor to the end, as a `for` loop over the map does. What it collects
   * lists every entry that remained exactly once, and nothing remains afterwards.
   */
  method Drain<K(==), V>(it: Iter<K, V>) returns (out: seq<(K, V)>)
    requires it.Valid()
    modifies it
    ensures it.Valid() && it.Remaining() == map[]
    ensures EnumerationOf(out, old(it.Remaining()))
    ensures |out| == |old(it.Remaining())|
  {
    out := [];
    ghost var start := it.Remaining();
    var done := false;
    while !done
      invariant it.Valid()
      invariant it.Remaining() == start - KeysOf(out)
      invariant DistinctKeys(out)
      invariant forall i :: 0 <= i < |out| ==> out[i].0 in start && start[out[i].0] == out[i].1
      invariant done ==> it.Remaining() == map[]
      decreases it.Remaining().Keys, !done
    {
      var item := it.Next();
      if item == None {
        done := true;
      } else {
        var entry := item.value;
        forall i | 0 <= i < |out| ensures out[i].0 != entry.0 {
          assert out[i].0 in KeysOf(out);
        }
        KeysOfConcat(out, [entry]);
        KeysOfSingleton(entry);
        out := out + [entry];
      }
    }
    CollectedAll(out, start);
  }

  /** A map that is only read keeps no table and reads as empty every time. */
  method ScenarioReadsOnly()
  {
    var m := new LazyHashMap<string, int>();
    assert m.Get("a") == None;
    assert !m.ContainsKey("a");
    var it := m.Iter();
    assert it.SizeHint() == (0, Some(0));
    var none := it.Next();
    assert none == None;
    assert m.table == None && m.Get("a") == None;
  }

  /** Inserting twice under one key: the second insertion returns the first value. */
  method ScenarioOverwrite()
  {
    var m := new LazyHashMap<string, int>();
    var p := m.Insert("a", 1);
    assert p == None && m.Get("a") == Some(1);
    p := m.Insert("a", 2);
    assert p == Some(1) && m.Get("a") == Some(2);
  }

  /** Two distinct keys are produced once each by a cursor, then nothing. */
  method ScenarioIterate()
  {
    var m := new LazyHashMap<string, int>();
    var p := m.Insert("a", 1);
    p := m.Insert("b", 2);
    assert m.Contents() == map["a" := 1, "b" := 2];
    var it := m.Iter();
    assert it.SizeHint().0 == 2;
    DrainTwo(it);
  }

  method DrainTwo(it: Iter<string, int>)
    requires it.Valid() && it.Remaining() == map["a" := 1, "b" := 2]
    modifies it
  {
    assert "a" in it.Remaining();
    var first := it.Next();
    ghost var k1 := first.value.0;
    assert first.value == ("a", 1) || first.value == ("b", 2);
    ghost var other := if k1 == "a" then "b" else "a";
    assert other in it.Remaining();
    var second := it.Next();
    ghost var k2 := second.value.0;
    assert k2 == other;
    assert it.Remaining() == map[] by {
      assert it.Remaining().Keys == {"a", "b"} - {k1} - {k2};
    }
    var third := it.Next();
    assert third == None;
    assert first.value == ("a", 1) ==> second.value == ("b", 2);
    assert first.value == ("b", 2) ==> second.value == ("a", 1);
  }
}
