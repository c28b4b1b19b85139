/** The same operations on tables that are changed in place: a tree of mutable objects, as the
    nested dictionaries of `apply_merge`, `clear_path` and `merge_toml_values` are. Each method is
    proved against the value-level function of module ConfigTree. */
module ConfigHeap {
  import opened Wrappers
  import opened Values
  import opened ConfigTree

  /** What a dictionary stores under a key: a nested dictionary, or a value that is never changed in place. */
  datatype Node = Leaf(value: Value) | Sub(table: TableObject)

  class TableObject {
    var entries: map<string, Node>
    ghost var Content: Dict
    ghost var Repr: set<TableObject>

    ghost predicate Valid()
      reads this, Repr
      ensures Valid() ==> this in Repr
      decreases Repr
    {
      && this in Repr
      && entries.Keys == Content.Keys
      && (forall k | k in entries :: entries[k].Leaf? ==> !entries[k].value.Table? && Content[k] == entries[k].value)
      && (forall k | k in entries && entries[k].Sub? :: HasChild(entries[k].table, Content[k]))
      && (forall j, k | j in entries && k in entries && j != k && entries[j].Sub? && entries[k].Sub? ::
            entries[j].table.Repr !! entries[k].table.Repr)
    }

    ghost predicate HasChild(t: TableObject, v: Value)
      reads this, Repr
      decreases Repr, 0
    {
      t in Repr && t.Repr < Repr && this !in t.Repr && t.Valid() && v == Table(t.Content)
    }

    constructor ()
      ensures Valid() && fresh(Repr) && Repr == {this} && Content == map[]
    {
      entries := map[];
      Content := map[];
      Repr := {this};
    }

    /** `current[key] = node` for a node that shares nothing with this table. */
    method Put(key: string, node: Node)
      requires Valid()
      requires node.Leaf? ==> !node.value.Table?
      requires node.Sub? ==> node.table.Valid() && node.table.Repr !! Repr
      modifies this
      ensures Valid() && Repr == old(Repr) + (if node.Sub? then node.table.Repr else {})
      ensures Content == old(Content)[key := if node.Sub? then Table(node.table.Content) else node.value]
    {
      match node {
        case Leaf(value) => PutLeaf(key, value);
        case Sub(table) => PutTable(key, table);
      }
    }

    method PutLeaf(key: string, value: Value)
      requires Valid() && !value.Table?
      modifies this
      ensures Valid() && Repr == old(Repr) && Content == old(Content)[key := value]
    {
      entries := entries[key := Leaf(value)];
      Content := Content[key := value];
    }

    method PutTable(key: string, table: TableObject)
      requires Valid() && table.Valid() && table.Repr !! Repr
      modifies this
      ensures Valid() && Repr == old(Repr) + table.Repr && Content == old(Content)[key := Table(table.Content)]
    {
      entries := entries[key := Sub(table)];
      Content := Content[key := Table(table.Content)];
      Repr := Repr + table.Repr;
    }

    /** The bookkeeping of this table after the nested table under a key was changed. */
    ghost method Refresh(key: string, child: TableObject)
      requires key in entries && entries[key] == Sub(child)
      requires this in Repr && entries.Keys == Content.Keys
      requires forall k | k in entries :: entries[k].Leaf? ==>
        !entries[k].value.Table?
        && Content[k] == entries[k].value
      requires forall k | k in entries && entries[k].Sub? && k != key :: HasChild(entries[k].table, Content[k])
      requires forall j, k | j in entries && k in entries && j != k && entries[j].Sub? && entries[k].Sub? ::
        entries[j].table.Repr !! entries[k].table.Repr
      requires child.Valid() && this !in child.Repr
      modifies this
      ensures Valid() && Repr == old(Repr) + child.Repr
      ensures Content == old(Content)[key := Table(child.Content)]
    {
      Repr := Repr + child.Repr;
      Content := Content[key := Table(child.Content)];
    }

    /** `copy.deepcopy` of a nested dictionary. */
    method Copy() returns (t: TableObject)
      requires Valid()
      ensures t.Valid() && fresh(t.Repr) && t.Content == Content
      decreases Repr, 1
    {
      t := new TableObject();
      var keys := entries.Keys;
      while keys != {}
        invariant t.Valid() && fresh(t.Repr) && keys <= entries.Keys
        invariant t.Content == Content - keys
      {
        var k :| k in keys;
        assert (Content - keys)[k := Content[k]] == Content - (keys - {k});
        keys := keys - {k};
        CopyEntry(k, t);
      }
    }

    /** The content as a value. */
    method ReadBack() returns (d: Dict)
      requires Valid()
      ensures d == Content
      decreases Repr, 1
    {
      d := map[];
      var keys := entries.Keys;
      while keys != {}
        invariant keys <= entries.Keys && d == Content - keys
      {
        var k :| k in keys;
        assert (Content - keys)[k := Content[k]] == Content - (keys - {k});
        keys := keys - {k};
        var v := GetBack(k);
        d := d[k := v];
      }
    }

    /** `current.get(key)` as a value. */
    method GetBack(key: string) returns (v: Value)
      requires Valid()
      ensures v == Get(Content, key)
      decreases Repr, 0
    {
      if key !in entries {
        return Null;
      }
      match entries[key] {
        case Leaf(value) =>
          v := value;
        case Sub(table) =>
          var d := table.ReadBack();
          v := Table(d);
      }
    }

    method CopyEntry(key: string, t: TableObject)
      requires Valid() && key in entries && t.Valid() && t.Repr !! Repr
      modifies t
      ensures t.Valid() && fresh(t.Repr - old(t.Repr)) && t.Content == old(t.Content)[key := Content[key]]
      decreases Repr, 0
    {
      match entries[key] {
        case Leaf(v) =>
          t.PutLeaf(key, v);
        case Sub(table) =>
          var c := table.Copy();
          t.PutTable(key, c);
      }
    }

    /** `merge_toml_values` with this table as the base. */
    method MergeInto(overlay: Dict)
      requires Valid()
      modifies Repr
      ensures Valid() && old(Repr) <= Repr && fresh(Repr - old(Repr))
      ensures Content == Merge(old(Content), overlay)
      decreases Table(overlay), 0
    {
      var keys := overlay.Keys;
      ghost var v0 := Content;
      PartMergedEnds(v0, overlay);
      while keys != {}
        invariant Valid() && old(Repr) <= Repr && fresh(Repr - old(Repr)) && keys <= overlay.Keys
        invariant Content == PartMerged(v0, overlay, keys)
      {
        var k :| k in keys;
        PartMergedStep(v0, overlay, keys, k);
        keys := keys - {k};
        MergeKey(k, overlay[k]);
      }
    }

    /** One round of the loop of `merge_toml_values`. */
    method MergeKey(key: string, value: Value)
      requires Valid()
      modifies Repr
      ensures Valid() && old(Repr) <= Repr && fresh(Repr - old(Repr))
      ensures Content == old(Content)[key := MergedValue(old(Content), key, value)]
      decreases value, 1
    {
      if key in entries && entries[key].Sub? && value.Table? {
        var child := entries[key].table;
        child.MergeInto(value.entries);
        Refresh(key, child);
      } else {
        var n := DeepCopy(value);
        Put(key, n);
      }
    }

    /** The descent of `apply_merge` and its store under the last key. */
    method MergeAt(path: seq<string>, value: Value, strategy: Strategy) returns (changed: bool)
      requires Valid() && path != [] && value != Null
      modifies Repr
      ensures Valid() && old(Repr) <= Repr && fresh(Repr - old(Repr))
      ensures Content == SetPath(old(Content), path, Combined(TableValue(old(Content), path), value, strategy))
      ensures changed
        == !Equal(TableValue(old(Content), path), Combined(TableValue(old(Content), path), value, strategy))
      decreases |path|
    {
      var k := path[0];
      if |path| == 1 {
        changed := StoreLast(k, value, strategy);
      } else if k in entries && entries[k].Sub? {
        var child := entries[k].table;
        changed := child.MergeAt(path[1..], value, strategy);
        Refresh(k, child);
      } else {
        var child := new TableObject();
        changed := child.MergeAt(path[1..], value, strategy);
        Put(k, Sub(child));
      }
    }

    /** An upsert of a table onto a table stores a merged copy, everything else a copy of the value. */
    method StoreLast(key: string, value: Value, strategy: Strategy) returns (changed: bool)
      requires Valid()
      modifies this
      ensures Valid() && old(Repr) <= Repr && fresh(Repr - old(Repr))
      ensures Content == old(Content)[key := Combined(Get(old(Content), key), value, strategy)]
      ensures changed == !Equal(Get(old(Content), key), Combined(Get(old(Content), key), value, strategy))
    {
      var oldValue := GetBack(key);
      Store(key, value, strategy);
      var newValue := GetBack(key);
      changed := !Equal(oldValue, newValue);
    }

    method Store(key: string, value: Value, strategy: Strategy)
      requires Valid()
      modifies this
      ensures Valid() && old(Repr) <= Repr && fresh(Repr - old(Repr))
      ensures Content == old(Content)[key := Combined(Get(old(Content), key), value, strategy)]
    {
      if strategy == Upsert && key in entries && entries[key].Sub? && value.Table? {
        var merged := entries[key].table.Copy();
        merged.MergeInto(value.entries);
        Put(key, Sub(merged));
      } else {
        var n := DeepCopy(value);
        Put(key, n);
      }
    }

    /** `current.pop(key, None)` */
    method Remove(key: string)
      requires Valid()
      modifies this
      ensures Valid() && Repr == old(Repr) && Content == old(Content) - {key}
    {
      entries := entries - {key};
      Content := Content - {key};
    }

    /** `clear_path` */
    method ClearAt(path: seq<string>) returns (removed: bool)
      requires Valid() && path != []
      modifies Repr
      ensures Valid() && old(Repr) <= Repr && fresh(Repr - old(Repr))
      ensures (Content, removed) == ClearPath(old(Content), path)
      decreases |path|
    {
      var k := path[0];
      if |path| == 1 {
        removed := k in entries && entries[k] != Leaf(Null);
        Remove(k);
      } else if k in entries && entries[k].Sub? {
        var child := entries[k].table;
        removed := child.ClearAt(path[1..]);
        Refresh(k, child);
      } else {
        removed := false;
      }
    }

    /** `apply_merge` */
    method ApplyMergeInPlace(path: seq<string>, value: Value, strategy: Strategy) returns (changed: bool)
      requires Valid() && path != []
      modifies Repr
      ensures Valid() && old(Repr) <= Repr && fresh(Repr - old(Repr))
      ensures (Content, changed) == ApplyMerge(old(Content), path, value, strategy)
      ensures value != Null ==>
        forall toInt :: ReadsAsStored(old(Content), Content, changed, path, value, strategy, toInt)
    {
      if value == Null {
        changed := ClearAt(path);
      } else {
        ghost var was := Content;
        changed := MergeAt(path, value, strategy);
        ReadsBack(was, Content, changed, path, value, strategy);
      }
    }
  }

  lemma ReadsBack(before: Dict, after: Dict, changed: bool, path: seq<string>, value: Value, strategy: Strategy)
    requires path != [] && value != Null && (after, changed) == ApplyMerge(before, path, value, strategy)
    ensures forall toInt :: ReadsAsStored(before, after, changed, path, value, strategy, toInt)
  {
    forall toInt ensures ReadsAsStored(before, after, changed, path, value, strategy, toInt) {
      MergeThenGet(before, path, value, strategy, toInt);
    }
  }

  /** `copy.deepcopy` of a value into fresh objects. */
  method DeepCopy(v: Value) returns (n: Node)
    ensures n.Leaf? ==> n.value == v && !v.Table?
    ensures n.Sub? ==> n.table.Valid() && fresh(n.table.Repr) && Table(n.table.Content) == v
    decreases v
  {
    if !v.Table? {
      return Leaf(v);
    }
    var t := new TableObject();
    var keys := v.entries.Keys;
    while keys != {}
      invariant t.Valid() && fresh(t.Repr) && keys <= v.entries.Keys
      invariant t.Content == v.entries - keys
    {
      var k :| k in keys;
      assert (v.entries - keys)[k := v.entries[k]] == v.entries - (keys - {k});
      keys := keys - {k};
      var c := DeepCopy(v.entries[k]);
      t.Put(k, c);
    }
    n := Sub(t);
  }

  ghost function MergedValue(base: Dict, key: string, value: Value): Value
  {
    if key in base && base[key].Table? && value.Table? then Table(Merge(base[key].entries, value.entries)) else value
  }

  /** The base after the overlay keys outside `left` were merged. */
  ghost function PartMerged(base: Dict, overlay: Dict, left: set<string>): Dict
    requires left <= overlay.Keys
  {
    map k | k in base.Keys + (overlay.Keys - left) ::
      if k in overlay && k !in left then MergedValue(base, k, overlay[k]) else base[k]
  }

  lemma PartMergedEnds(base: Dict, overlay: Dict)
    ensures PartMerged(base, overlay, overlay.Keys) == base
    ensures PartMerged(base, overlay, {}) == Merge(base, overlay)
  {
    assert PartMerged(base, overlay, {}).Keys == Merge(base, overlay).Keys;
  }

  lemma PartMergedStep(base: Dict, overlay: Dict, left: set<string>, k: string)
    requires left <= overlay.Keys && k in left
    ensures var part := PartMerged(base, overlay, left);
            && part[k := MergedValue(part, k, overlay[k])] == PartMerged(base, overlay, left - {k})
  {
    var part := PartMerged(base, overlay, left);
    assert k in part <==> k in base;
  }
}
