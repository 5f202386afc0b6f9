/**
 * The TOML inlist loader: a tree parsed by `tomllib`, in which every empty table is
 * then replaced by None, in place, at every depth reached through tables; tables inside
 * arrays are not entered.
 */
module TomlInlist {

  /** A value of a parsed TOML document (`tomllib.load`), plus the None that the
      normalisation writes. Floats and date-times are kept as their TOML text. */
  datatype TomlValue =
    | Table(entries: map<string, TomlValue>)
    | Str(s: string)
    | Integer(i: int)
    | Float(text: string)
    | Bool(b: bool)
    | DateTime(text: string)
    | Array(items: seq<TomlValue>)
    | Null

  // ---------------------------------------------------------------------------
  // The normalisation on values
  // ---------------------------------------------------------------------------

  /** The dictionary `_adjust_for_none` leaves: every value adjusted, no key added or removed. */
  function Normalized(m: map<string, TomlValue>): (r: map<string, TomlValue>)
    ensures r.Keys == m.Keys
    decreases Table(m), 0
  {
    map k | k in m :: NormalizedValue(m[k])
  }

  /** One value of the loop: an empty table becomes None, a non-empty table is adjusted
      in turn, and anything else, arrays included, is left as it is. */
  function NormalizedValue(v: TomlValue): (r: TomlValue)
    ensures r.Table? ==> v.Table? && r.entries.Keys == v.entries.Keys
    ensures r == Null ==> v == Null || v == Table(map[])
    ensures !v.Table? ==> r == v
    decreases v, 1
  {
    if v == Table(map[]) then Null
    else if v.Table? then Table(Normalized(v.entries))
    else v
  }

  /** What happens to the value under one key: an empty table becomes None, a
      non-empty table is normalised in turn, any other value is kept. */
  lemma NormalizedAt(m: map<string, TomlValue>, k: string)
    requires k in m
    ensures k in Normalized(m)
    ensures m[k] == Table(map[]) ==> Normalized(m)[k] == Null
    ensures m[k].Table? && m[k].entries != map[] ==>
      Normalized(m)[k] == Table(Normalized(m[k].entries))
    ensures !m[k].Table? ==> Normalized(m)[k] == m[k]
  {
    assert Normalized(m)[k] == NormalizedValue(m[k]);
  }

  /** The keys of every dictionary are kept, and so are the keys of a non-empty table. */
  lemma AdjustCases(m: map<string, TomlValue>)
    ensures Normalized(m).Keys == m.Keys
    ensures forall k | k in m && m[k] == Table(map[]) :: Normalized(m)[k] == Null
    ensures forall k | k in m && m[k].Table? && m[k].entries != map[] ::
      Normalized(m)[k].Table? && Normalized(m)[k].entries.Keys == m[k].entries.Keys
    ensures forall k | k in m && !m[k].Table? :: Normalized(m)[k] == m[k]
  {
    forall k | k in m
      ensures m[k] == Table(map[]) ==> Normalized(m)[k] == Null
      ensures m[k].Table? && m[k].entries != map[] ==>
        Normalized(m)[k].Table? && Normalized(m)[k].entries.Keys == m[k].entries.Keys
      ensures !m[k].Table? ==> Normalized(m)[k] == m[k]
    {
      NormalizedAt(m, k);
    }
  }

  /** The paths of keys through nested tables: `[k]` for every key, and `[k] + p` for
      every path `p` of the table stored under `k`. */
  ghost function Paths(m: map<string, TomlValue>): set<seq<string>>
    decreases Table(m)
  {
    (set k | k in m :: [k])
    + (set k, p | k in m && m[k].Table? && p in Paths(m[k].entries) :: [k] + p)
  }

  /** The normalisation neither adds nor removes a key at any depth reached through tables. */
  lemma {:induction false} AdjustKeepsPaths(m: map<string, TomlValue>)
    ensures Paths(Normalized(m)) == Paths(m)
    decreases Table(m)
  {
    var r := Normalized(m);
    forall k | k in m && m[k].Table?
      ensures (r[k].Table? && Paths(r[k].entries) == Paths(m[k].entries))
           || (!r[k].Table? && Paths(m[k].entries) == {})
    {
      NormalizedAt(m, k);
      if m[k].entries == map[] {
        assert Paths(m[k].entries) == {};
      } else {
        AdjustKeepsPaths(m[k].entries);
      }
    }
    forall p | p in Paths(r) ensures p in Paths(m) {
      if !(exists k | k in r :: p == [k]) {
        var k, q :| k in r && r[k].Table? && q in Paths(r[k].entries) && p == [k] + q;
        NormalizedAt(m, k);
        assert m[k].Table?;
      }
    }
    forall p | p in Paths(m) ensures p in Paths(r) {
      if !(exists k | k in m :: p == [k]) {
        var k, q :| k in m && m[k].Table? && q in Paths(m[k].entries) && p == [k] + q;
        assert r[k].Table? && q in Paths(r[k].entries);
      }
    }
  }

  /** No empty table anywhere in the tree, looking through tables. */
  ghost predicate NoEmptyTable(m: map<string, TomlValue>)
    decreases Table(m)
  {
    forall k | k in m :: m[k] != Table(map[]) && (m[k].Table? ==> NoEmptyTable(m[k].entries))
  }

  /** After the normalisation no empty table is left at any depth reached through tables.
      Tables inside arrays are not entered (`ArrayNotEntered`). */
  lemma {:induction false} AdjustLeavesNoEmptyTable(m: map<string, TomlValue>)
    ensures NoEmptyTable(Normalized(m))
    decreases Table(m)
  {
    var r := Normalized(m);
    forall k | k in r ensures r[k] != Table(map[]) && (r[k].Table? ==> NoEmptyTable(r[k].entries)) {
      NormalizedAt(m, k);
      if m[k].Table? && m[k].entries != map[] {
        AdjustLeavesNoEmptyTable(m[k].entries);
        AdjustCases(m[k].entries);
        var k0 :| k0 in m[k].entries;
        assert k0 in r[k].entries;
      }
    }
  }

  /** An array is left as it is, even when it holds an empty table: `list = [{}]` keeps
      its empty table. */
  lemma ArrayNotEntered()
    ensures Normalized(map["list" := Array([Table(map[])])]) == map["list" := Array([Table(map[])])]
  {
    var m := map["list" := Array([Table(map[])])];
    NormalizedAt(m, "list");
  }

  /** A None in the result was a None or an empty table before. */
  lemma NullsComeFromEmptyTables(m: map<string, TomlValue>, k: string)
    requires k in m && Normalized(m)[k] == Null
    ensures m[k] == Null || m[k] == Table(map[])
  {
    NormalizedAt(m, k);
  }

  /** Applying the normalisation twice gives the tree of applying it once: None is neither
      an empty table nor a table. */
  lemma {:induction false} AdjustIdempotent(m: map<string, TomlValue>)
    ensures Normalized(Normalized(m)) == Normalized(m)
    decreases Table(m)
  {
    var r := Normalized(m);
    forall k | k in r ensures NormalizedValue(r[k]) == r[k] {
      NormalizedAt(m, k);
      if m[k].Table? && m[k].entries != map[] {
        AdjustIdempotent(m[k].entries);
        AdjustCases(m[k].entries);
        var k0 :| k0 in m[k].entries;
        assert k0 in r[k].entries;
      }
    }
  }

  /** The document `[my-table]` with `my-version = "3.11"`, `my-implementation = "TEST"`
      and `my-none = {}`: the string values stay strings and `my-none` becomes None. */
  lemma AdjustExample()
    ensures Normalized(map["my-table" := Table(map[
              "my-version" := Str("3.11"), "my-implementation" := Str("TEST"),
              "my-none" := Table(map[])])])
         == map["my-table" := Table(map[
              "my-version" := Str("3.11"), "my-implementation" := Str("TEST"),
              "my-none" := Null])]
  {
    var inner := map["my-version" := Str("3.11"), "my-implementation" := Str("TEST"), "my-none" := Table(map[])];
    var adjusted := map["my-version" := Str("3.11"), "my-implementation" := Str("TEST"), "my-none" := Null];
    assert Normalized(inner) == adjusted;
    assert inner != map[] by {
      assert "my-none" in inner;
    }
    assert NormalizedValue(Table(inner)) == Table(adjusted);
  }

  // ---------------------------------------------------------------------------
  // The normalisation in place
  // ---------------------------------------------------------------------------

  /** A value stored in a dictionary object: a nested dictionary, or any other value. */
  datatype Slot = Nested(table: TomlTable) | Leaf(value: TomlValue)

  /** A parsed TOML dictionary as a mutable object; `Model` is the tree it holds. */
  class TomlTable {
    var entries: map<string, Slot>
    ghost var Model: map<string, TomlValue>
    ghost var Repr: set<object>

    /** The tree below each nested dictionary is its own, disjoint from its siblings';
        leaves are not tables; `Model` is the tree the objects hold. */
    ghost predicate Valid()
      reads this, Repr
      decreases Repr
    {
      && this in Repr
      && entries.Keys == Model.Keys
      && (forall k | k in entries :: entries[k].Leaf? ==>
            !entries[k].value.Table? && Model[k] == entries[k].value)
      && (forall k | k in entries :: entries[k].Nested? ==>
            var t := entries[k].table;
            && t in Repr && t.Repr <= Repr && this !in t.Repr
            && t.Valid() && Model[k] == Table(t.Model))
      && (forall k, k' | k in entries && k' in entries && k != k' ::
            entries[k].Nested? && entries[k'].Nested? ==> entries[k].table.Repr !! entries[k'].table.Repr)
    }

    /** A dictionary built from the values of `m` that are not tables. */
    constructor (m: map<string, TomlValue>)
      requires forall k | k in m :: !m[k].Table?
      ensures Valid() && fresh(Repr) && Model == m
    {
      entries := map k | k in m :: Leaf(m[k]);
      Model := m;
      Repr := {this};
    }

    /** `parsed_dict[key] = table` for a nested dictionary that is not yet in this tree. */
    method Attach(key: string, t: TomlTable)
      requires Valid() && t.Valid() && Repr !! t.Repr
      modifies this
      ensures Valid() && Repr == old(Repr) + t.Repr
      ensures Model == old(Model)[key := Table(t.Model)]
    {
      entries := entries[key := Nested(t)];
      Model := Model[key := Table(t.Model)];
      Repr := Repr + t.Repr;
    }

    /** `_adjust_for_none`: the loop over the items, replacing each empty dictionary by
        None and recursing into the others. */
    method AdjustForNone()
      requires Valid()
      modifies Repr
      ensures Valid() && Repr == old(Repr)
      ensures Model == Normalized(old(Model))
      decreases Repr, 2
    {
      ghost var model0 := Model;
      var keys := entries.Keys;
      while keys != {}
        invariant Valid() && Repr == old(Repr)
        invariant keys <= entries.Keys && entries.Keys == model0.Keys
        invariant forall k | k in keys :: Model[k] == model0[k]
        invariant forall k | k in entries && k !in keys :: Model[k] == NormalizedValue(model0[k])
        decreases keys
      {
        var key :| key in keys;
        AdjustItem(key);
        keys := keys - {key};
      }
    }

    /** One step of the loop: the value under `key` made None if it is an empty
        dictionary, adjusted in place if it is another dictionary, else left alone. */
    method AdjustItem(key: string)
      requires Valid() && key in entries
      modifies Repr
      ensures Valid() && Repr == old(Repr) && entries.Keys == old(entries.Keys)
      ensures Model == old(Model)[key := NormalizedValue(old(Model)[key])]
      decreases Repr, 1
    {
      match entries[key]
      case Leaf(_) =>
      case Nested(t) =>
        assert Model[key] == Table(t.Model);
        if t.entries == map[] {
          assert t.Model == map[];
          entries := entries[key := Leaf(Null)];
          Model := Model[key := Null];
        } else {
          AdjustNested(key, t);
        }
    }

    /** The recursive call on the non-empty dictionary `t` stored under `key`. */
    method AdjustNested(key: string, t: TomlTable)
      requires Valid() && key in entries && entries[key] == Nested(t)
      modifies Repr
      ensures Valid() && Repr == old(Repr) && entries.Keys == old(entries.Keys)
      ensures Model == old(Model)[key := Table(Normalized(old(Model)[key].entries))]
      decreases Repr, 0
    {
      assert t.Repr < Repr;
      assert forall k | k in entries && k != key && entries[k].Nested? ::
        entries[k].table in entries[k].table.Repr && entries[k].table.Repr !! t.Repr;
      t.AdjustForNone();
      Model := Model[key := Table(t.Model)];
      forall k | k in entries && k != key && entries[k].Nested?
        ensures entries[k].table.Repr == old(entries[k].table.Repr)
        ensures entries[k].table.Valid()
        ensures Model[k] == Table(entries[k].table.Model)
      {
      }
    }
  }

  /** `get_inlist_values`: the parsed dictionary, normalised once, is the result. */
  method GetInlistValues(parsed: TomlTable) returns (r: TomlTable)
    requires parsed.Valid()
    modifies parsed.Repr
    ensures r == parsed && r.Valid()
    ensures r.Model == Normalized(old(parsed.Model))
  {
    parsed.AdjustForNone();
    r := parsed;
  }
}
