/**
 * The table mechanics the contract relies on: the ordered std::set it builds approval
 * lists with, ascending primary-key iteration of a multi_index, available_primary_key,
 * and the bounded erase loop of cleanTable (include/daclifycore.hpp).
 */
module Tables {
  import opened Types

  /** Strictly ascending: the order of a std::set<name> and of a multi_index by primary key. */
  predicate StrictlySorted(s: seq<Name>)
  {
    forall i, j :: 0 <= i < j < |s| ==> s[i] < s[j]
  }

  /** The smallest element of an ordered set comes first. */
  lemma SortedHeadIsMin(s: seq<Name>, y: Name)
    requires StrictlySorted(s) && y in s
    ensures s[0] <= y
  {
    var k :| 0 <= k < |s| && s[k] == y;
    assert k == 0 || s[0] < s[k];
  }

  /** An ordered set splits into its least element and an ordered remainder above it. */
  lemma SortedSplit(s: seq<Name>)
    requires StrictlySorted(s) && s != []
    ensures StrictlySorted(s[1..])
    ensures forall y :: y in s <==> y == s[0] || y in s[1..]
    ensures forall y :: y in s[1..] ==> s[0] < y
  {
    var t := s[1..];
    forall i, j | 0 <= i < j < |t| ensures t[i] < t[j] {
      assert t[i] == s[i + 1] && t[j] == s[j + 1];
    }
    forall y | y in t ensures s[0] < y && y in s {
      var k :| 0 <= k < |t| && t[k] == y;
      assert s[k + 1] == y;
    }
    forall y | y in s && y != s[0] ensures y in t {
      var k :| 0 <= k < |s| && s[k] == y;
      assert t[k - 1] == y;
    }
  }

  /** Putting an element below every element of an ordered set in front keeps it ordered. */
  lemma SortedCons(x: Name, t: seq<Name>)
    requires StrictlySorted(t)
    requires forall y :: y in t ==> x < y
    ensures StrictlySorted([x] + t)
  {
    var r := [x] + t;
    forall i, j | 0 <= i < j < |r| ensures r[i] < r[j] {
      assert r[j] == t[j - 1];
      if i == 0 {
        assert t[j - 1] in t;
      } else {
        assert r[i] == t[i - 1];
      }
    }
  }

  /** std::set<name>::insert into the set whose ascending iteration is s. */
  function Insert(s: seq<Name>, x: Name): seq<Name>
  {
    if s == [] then [x]
    else if x < s[0] then [x] + s
    else if x == s[0] then s
    else [s[0]] + Insert(s[1..], x)
  }

  /** Inserting into an ordered set keeps it ordered, adds exactly x, and leaves it
      unchanged when x is already there. */
  lemma {:induction false} InsertOrdered(s: seq<Name>, x: Name)
    requires StrictlySorted(s)
    ensures StrictlySorted(Insert(s, x))
    ensures forall y :: y in Insert(s, x) <==> y in s || y == x
    ensures x in s ==> Insert(s, x) == s
    ensures x !in s ==> |Insert(s, x)| == |s| + 1
  {
    if s == [] {
    } else if x < s[0] {
      if x in s {
        SortedHeadIsMin(s, x);
      }
      SortedCons(x, s);
    } else if x > s[0] {
      SortedSplit(s);
      InsertOrdered(s[1..], x);
      SortedCons(s[0], Insert(s[1..], x));
    }
  }

  /** Two strictly sorted sequences with the same elements are equal. */
  lemma {:induction false} SortedUnique(s: seq<Name>, t: seq<Name>)
    requires StrictlySorted(s) && StrictlySorted(t)
    requires forall x :: x in s <==> x in t
    ensures s == t
  {
    assert s != [] ==> s[0] in t;
    assert t != [] ==> t[0] in s;
    if s != [] && t != [] {
      SortedHeadIsMin(s, t[0]);
      SortedHeadIsMin(t, s[0]);
      SortedSplit(s);
      SortedSplit(t);
      SortedUnique(s[1..], t[1..]);
      assert s == [s[0]] + s[1..] && t == [t[0]] + t[1..];
    }
  }

  /** The least element of a non-empty finite set of names. */
  ghost function SetMin(s: set<Name>): (m: Name)
    requires s != {}
    ensures m in s && forall y :: y in s ==> m <= y
  {
    var x :| x in s;
    if s == {x} then x
    else
      var m' := SetMin(s - {x});
      assert forall y :: y in s ==> y == x || y in s - {x};
      if m' < x then m' else x
  }

  /** A finite set of names in ascending order: the order in which a multi_index visits
      the primary keys it holds. */
  ghost function Ascending(s: set<Name>): (r: seq<Name>)
    ensures StrictlySorted(r) && |r| == |s|
    ensures forall x :: x in r <==> x in s
    decreases s
  {
    if s == {} then []
    else
      var m := SetMin(s);
      var t := Ascending(s - {m});
      SortedCons(m, t);
      [m] + t
  }

  /** The keys of a table in ascending primary-key order, as its iterators visit them. */
  method OrderedKeys<V>(m: map<Name, V>) returns (ks: seq<Name>)
    ensures StrictlySorted(ks)
    ensures forall k :: k in ks <==> k in m
    ensures ks == Ascending(m.Keys)
  {
    ks := [];
    var rest := m.Keys;
    while rest != {}
      invariant StrictlySorted(ks)
      invariant forall k :: k in m <==> k in ks || k in rest
      invariant forall k :: k in rest ==> k !in ks
      decreases rest
    {
      var k :| k in rest;
      InsertOrdered(ks, k);
      ks := Insert(ks, k);
      rest := rest - {k};
    }
    SortedUnique(ks, Ascending(m.Keys));
  }

  /** The largest element of a non-empty finite set of keys. */
  ghost function SetMax(s: set<Uint64>): (m: Uint64)
    requires s != {}
    ensures m in s && forall y :: y in s ==> y <= m
  {
    var x :| x in s;
    if s == {x} then x
    else
      var m' := SetMax(s - {x});
      assert forall y :: y in s ==> y == x || y in s - {x};
      if x < m' then m' else x
  }

  /** no_available_primary_key, (uint64_t)-2. */
  const NO_AVAILABLE_PRIMARY_KEY: int := TWO_TO_THE_64 - 2

  /** available_primary_key of a table whose largest primary key is largest (None: empty table). */
  function NextPrimaryKey(largest: Option<Uint64>): (r: Result<Uint64>)
    ensures r.Ok? ==> r.value < NO_AVAILABLE_PRIMARY_KEY
    ensures r.Ok? && largest.Some? ==> r.value == largest.value + 1
    ensures largest.None? ==> r == Ok(0)
    ensures r.Err? <==> largest.Some? && largest.value + 1 >= NO_AVAILABLE_PRIMARY_KEY
  {
    match largest
    case None => Ok(0)
    case Some(pk) =>
      var next := if pk >= NO_AVAILABLE_PRIMARY_KEY then NO_AVAILABLE_PRIMARY_KEY else pk + 1;
      if next < NO_AVAILABLE_PRIMARY_KEY then Ok(next) else Err(PrimaryKeyExhausted)
  }

  /** The largest key of a table, None when it is empty. */
  ghost function Largest(keys: set<Uint64>): Option<Uint64>
  {
    if keys == {} then None else Some(SetMax(keys))
  }

  /** available_primary_key of a table with the given primary keys: one past the largest,
      never one already in use. */
  method AvailablePrimaryKey(keys: set<Uint64>) returns (r: Result<Uint64>)
    ensures r == NextPrimaryKey(Largest(keys))
    ensures r.Ok? ==> r.value !in keys && forall k :: k in keys ==> k < r.value
  {
    if keys == {} {
      return Ok(0);
    }
    var rest := keys;
    var top: Uint64 :| top in rest;
    while rest != {}
      invariant top in keys
      invariant forall k :: k in keys ==> k <= top || k in rest
      decreases rest
    {
      var k :| k in rest;
      if k > top {
        top := k;
      }
      rest := rest - {k};
    }
    assert top == SetMax(keys);
    r := NextPrimaryKey(Some(top));
  }

  /** The rows left after erasing the batchSize lowest-keyed ones (all of them if fewer). */
  function DropLowest<T>(rows: seq<T>, batchSize: nat): (r: seq<T>)
    ensures |r| == if batchSize < |rows| then |rows| - batchSize else 0
    ensures forall i :: 0 <= i < |r| ==> r[i] == rows[|rows| - |r| + i]
  {
    if batchSize < |rows| then rows[batchSize..] else []
  }

  /** cleanTable: erase from the lowest key while fewer than batchSize rows were erased.
      rows is the table in ascending key order. */
  method CleanTable<T>(rows: seq<T>, batchSize: Uint32) returns (rest: seq<T>)
    ensures rest == DropLowest(rows, batchSize)
  {
    var counter: int := 0;
    rest := rows;
    while rest != [] && counter < batchSize
      invariant 0 <= counter <= batchSize
      invariant counter <= |rows| && rest == rows[counter..]
    {
      counter := counter + 1;
      rest := rest[1..];
    }
  }
}
