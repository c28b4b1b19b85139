/** The user configuration as nested tables: `apply_merge`, `clear_path`, `merge_toml_values`
    and `value_at_path`. */
module ConfigTree {
  import opened Wrappers
  import opened Values

  type Dict = map<string, Value>

  datatype Strategy = Replace | Upsert

  /** Python's `int(segment)`: None where it raises ValueError. */
  type IntParser = string -> Option<int>

  // ---------------------------------------------------------------- reading

  /** `items[i]` with Python's negative indices: Null where it raises IndexError. */
  function Item(items: seq<Value>, i: int): Value
  {
    if 0 <= i < |items| then items[i]
    else if -|items| <= i < 0 then items[|items| + i]
    else Null
  }

  function Get(d: Dict, key: string): Value
  {
    if key in d then d[key] else Null
  }

  /** `value_at_path`: Null stands for both a missing value and a value that is None. */
  function ValueAt(v: Value, path: seq<string>, toInt: IntParser): Value
    decreases |path|
  {
    if path == [] then v
    else match v
      case Table(d) => ValueAt(Get(d, path[0]), path[1..], toInt)
      case List(items) =>
        (match toInt(path[0])
         case None => Null
         case Some(i) => ValueAt(Item(items, i), path[1..], toInt))
      case _ => Null
  }

  // ---------------------------------------------------------------- writing

  /** `merge_toml_values`: the overlay wins, except that two tables are merged. */
  function Merge(base: Dict, overlay: Dict): Dict
    decreases Table(overlay)
  {
    map k | k in base.Keys + overlay.Keys ::
      if k !in overlay then base[k]
      else if k in base && base[k].Table? && overlay[k].Table? then Table(Merge(base[k].entries, overlay[k].entries))
      else overlay[k]
  }

  /** The table stored under a key, or an empty one in place of anything else. */
  function Child(d: Dict, key: string): Dict
  {
    if key in d && d[key].Table? then d[key].entries else map[]
  }

  /** Store a value at a path, turning every proper prefix into a table. */
  function SetPath(d: Dict, path: seq<string>, v: Value): Dict
    requires path != []
    decreases |path|
  {
    if |path| == 1 then d[path[0] := v]
    else d[path[0] := Table(SetPath(Child(d, path[0]), path[1..], v))]
  }

  /** What ends up under the last key: an upsert of a table onto a table merges. */
  function Combined(old_: Value, value: Value, strategy: Strategy): (r: Value)
    ensures value != Null ==> r != Null
  {
    if strategy == Upsert && old_.Table? && value.Table? then Table(Merge(old_.entries, value.entries)) else value
  }

  /** The value under the path, looking through tables only. */
  function TableValue(d: Dict, path: seq<string>): Value
    requires path != []
    decreases |path|
  {
    if |path| == 1 then Get(d, path[0]) else TableValue(Child(d, path[0]), path[1..])
  }

  /** `clear_path`: the new root and whether a value other than None was removed. */
  function ClearPath(d: Dict, path: seq<string>): (Dict, bool)
    requires path != []
    decreases |path|
  {
    var k := path[0];
    if |path| == 1 then (d - {k}, Get(d, k) != Null)
    else if k in d && d[k].Table? then
      var (e, removed) := ClearPath(d[k].entries, path[1..]);
      (d[k := Table(e)], removed)
    else (d, false)
  }

  /** `apply_merge` on a non-empty path: the new root and whether the value under the last key changed. */
  function ApplyMerge(d: Dict, path: seq<string>, value: Value, strategy: Strategy): (Dict, bool)
    requires path != []
  {
    if value == Null then ClearPath(d, path)
    else
      var w := Combined(TableValue(d, path), value, strategy);
      (SetPath(d, path, w), !Equal(TableValue(d, path), w))
  }

  // ---------------------------------------------------------------- paths

  /** Some proper prefix of the path names a list. */
  predicate ThroughList(d: Dict, path: seq<string>)
    requires path != []
    decreases |path|
  {
    |path| > 1 && path[0] in d &&
    (d[path[0]].List? || (d[path[0]].Table? && ThroughList(d[path[0]].entries, path[1..])))
  }

  /** Neither path is a prefix of the other. */
  predicate Incomparable(p: seq<string>, q: seq<string>)
    decreases |p|
  {
    p != [] && q != [] && (p[0] != q[0] || Incomparable(p[1..], q[1..]))
  }

  /** Away from lists, reading a path looks through tables only. */
  lemma {:induction false} ValueAwayFromLists(d: Dict, path: seq<string>, toInt: IntParser)
    requires path != [] && !ThroughList(d, path)
    ensures ValueAt(Table(d), path, toInt) == TableValue(d, path)
    decreases |path|
  {
    var k := path[0];
    var rest := path[1..];
    if |path| == 1 {
      assert rest == [];
      assert ValueAt(Get(d, k), rest, toInt) == Get(d, k);
    } else {
      NothingInEmpty(rest);
      if k in d && d[k].Table? {
        ValueAwayFromLists(d[k].entries, rest, toInt);
      } else {
        assert ValueAt(Get(d, k), rest, toInt) == Null;
      }
    }
  }

  lemma {:induction false} NothingInEmpty(path: seq<string>)
    requires path != []
    ensures TableValue(map[], path) == Null
    decreases |path|
  {
    if |path| > 1 { NothingInEmpty(path[1..]); }
  }

  // ---------------------------------------------------------------- set: get/put and frame

  /** A set makes every proper prefix a table, so no list remains on the path. */
  lemma {:induction false} SetLeavesTables(d: Dict, path: seq<string>, v: Value)
    requires path != []
    ensures !ThroughList(SetPath(d, path, v), path)
    ensures TableValue(SetPath(d, path, v), path) == v
    decreases |path|
  {
    if |path| > 1 { SetLeavesTables(Child(d, path[0]), path[1..], v); }
  }

  /** Reading back what was set, for every path and every previous content. */
  lemma SetThenGet(d: Dict, path: seq<string>, v: Value, toInt: IntParser)
    requires path != []
    ensures ValueAt(Table(SetPath(d, path, v)), path, toInt) == v
  {
    SetLeavesTables(d, path, v);
    ValueAwayFromLists(SetPath(d, path, v), path, toInt);
  }

  /** Setting what is already there, away from lists, changes nothing. */
  lemma {:induction false} SetSame(d: Dict, path: seq<string>)
    requires path != [] && !ThroughList(d, path) && TableValue(d, path) != Null
    ensures SetPath(d, path, TableValue(d, path)) == d
    decreases |path|
  {
    var k := path[0];
    if |path| > 1 {
      if k !in d || !d[k].Table? {
        NothingInEmpty(path[1..]);
      } else {
        SetSame(d[k].entries, path[1..]);
      }
    }
  }

  /** Both paths go through the first list that stands on the way of the first. */
  predicate SharesList(d: Dict, path: seq<string>, other: seq<string>)
    requires path != []
    decreases |path|
  {
    |path| > 1 && other != [] && path[0] == other[0] && path[0] in d &&
    (d[path[0]].List? || (d[path[0]].Table? && SharesList(d[path[0]].entries, path[1..], other[1..])))
  }

  /** What a set does to every other path: those through a list on its way read as nothing, all others as before. */
  lemma {:induction false} SetFrame(d: Dict, path: seq<string>, v: Value, other: seq<string>, toInt: IntParser)
    requires path != [] && Incomparable(path, other)
    ensures ValueAt(Table(SetPath(d, path, v)), other, toInt)
         == if SharesList(d, path, other) then Null else ValueAt(Table(d), other, toInt)
    decreases |path|
  {
    var k := path[0];
    if other[0] == k {
      assert |path| > 1 && other[1..] != [];
      SetFrame(Child(d, k), path[1..], v, other[1..], toInt);
      if !(k in d && d[k].Table?) {
        ValueInEmpty(other[1..], toInt);
      }
    }
  }

  lemma {:induction false} SharesThroughList(d: Dict, path: seq<string>, other: seq<string>)
    requires path != [] && !ThroughList(d, path)
    ensures !SharesList(d, path, other)
    decreases |path|
  {
    if |path| > 1 && other != [] && path[0] in d && d[path[0]].Table? {
      SharesThroughList(d[path[0]].entries, path[1..], other[1..]);
    }
  }

  lemma ValueInEmpty(path: seq<string>, toInt: IntParser)
    requires path != []
    ensures ValueAt(Table(map[]), path, toInt) == Null
  {
    assert ValueAt(Null, path[1..], toInt) == Null;
  }

  // ---------------------------------------------------------------- clear: get/put and frame

  lemma {:induction false} ClearRemoves(d: Dict, path: seq<string>)
    requires path != []
    ensures TableValue(ClearPath(d, path).0, path) == Null
    ensures ThroughList(ClearPath(d, path).0, path) == ThroughList(d, path)
    ensures ClearPath(d, path).1 <==> TableValue(d, path) != Null
    decreases |path|
  {
    var k := path[0];
    if |path| > 1 {
      if k in d && d[k].Table? {
        ClearRemoves(d[k].entries, path[1..]);
      } else {
        NothingInEmpty(path[1..]);
      }
    }
  }

  /** When a list is on the way, nothing is cleared. */
  lemma {:induction false} ClearStopsAtList(d: Dict, path: seq<string>)
    requires path != [] && ThroughList(d, path)
    ensures ClearPath(d, path).0 == d
    decreases |path|
  {
    if d[path[0]].Table? { ClearStopsAtList(d[path[0]].entries, path[1..]); }
  }

  /** After a clear the path reads as nothing, exactly unless it leads to something inside a list. */
  lemma ClearThenGet(d: Dict, path: seq<string>, toInt: IntParser)
    requires path != []
    ensures ValueAt(Table(ClearPath(d, path).0), path, toInt) == Null
       <==> !(ThroughList(d, path) && ValueAt(Table(d), path, toInt) != Null)
  {
    ClearRemoves(d, path);
    if ThroughList(d, path) {
      ClearStopsAtList(d, path);
    } else {
      ValueAwayFromLists(ClearPath(d, path).0, path, toInt);
    }
  }

  lemma {:induction false} ClearFrame(d: Dict, path: seq<string>, other: seq<string>, toInt: IntParser)
    requires path != [] && Incomparable(path, other)
    ensures ValueAt(Table(ClearPath(d, path).0), other, toInt) == ValueAt(Table(d), other, toInt)
    decreases |path|
  {
    var k := path[0];
    if other[0] == k {
      assert |path| > 1;
      if k in d && d[k].Table? {
        ClearFrame(d[k].entries, path[1..], other[1..], toInt);
      }
    }
  }

  /** Clearing a path that holds no key leaves the configuration as it is. */
  lemma {:induction false} ClearNothing(d: Dict, path: seq<string>)
    requires path != [] && !Present(d, path)
    ensures ClearPath(d, path).0 == d
    decreases |path|
  {
    if |path| > 1 && path[0] in d && d[path[0]].Table? { ClearNothing(d[path[0]].entries, path[1..]); }
  }

  /** The path leads through tables to a key that exists, possibly with value None. */
  predicate Present(d: Dict, path: seq<string>)
    requires path != []
    decreases |path|
  {
    if |path| == 1 then path[0] in d
    else path[0] in d && d[path[0]].Table? && Present(d[path[0]].entries, path[1..])
  }

  lemma {:induction false} ClearPresent(d: Dict, path: seq<string>)
    requires path != [] && Present(d, path)
    ensures ClearPath(d, path).0 != d
    decreases |path|
  {
    if |path| > 1 {
      ClearPresent(d[path[0]].entries, path[1..]);
      assert ClearPath(d, path).0[path[0]] != d[path[0]];
    } else {
      assert path[0] !in ClearPath(d, path).0;
    }
  }

  // ---------------------------------------------------------------- apply_merge

  lemma {:induction false} NothingThroughList(d: Dict, path: seq<string>)
    requires path != [] && ThroughList(d, path)
    ensures TableValue(d, path) == Null
    decreases |path|
  {
    if d[path[0]].Table? {
      NothingThroughList(d[path[0]].entries, path[1..]);
    } else {
      NothingInEmpty(path[1..]);
    }
  }

  /** What a path reads as; nothing if a list stands on the way. */
  function ReadOutsideLists(d: Dict, path: seq<string>, toInt: IntParser): Value
    requires path != []
  {
    if ThroughList(d, path) then Null else ValueAt(Table(d), path, toInt)
  }

  lemma TableValueIsRead(d: Dict, path: seq<string>, toInt: IntParser)
    requires path != []
    ensures TableValue(d, path) == ReadOutsideLists(d, path, toInt)
  {
    if ThroughList(d, path) { NothingThroughList(d, path); } else { ValueAwayFromLists(d, path, toInt); }
  }

  /** After a replace the path reads as the value, whatever was there; after an upsert of a table onto a table as the
      two merged, otherwise as the value. The answer says whether that differs from what was there. */
  ghost predicate ReadsAsStored(before: Dict, after: Dict, changed: bool, path: seq<string>, value: Value,
      strategy: Strategy, toInt: IntParser)
    requires path != []
  {
    var old_, new_ := ReadOutsideLists(before, path, toInt), ValueAt(Table(after), path, toInt);
    && (strategy == Replace ==> new_ == value)
    && (strategy == Upsert && old_.Table? && value.Table? ==> new_ == Table(Merge(old_.entries, value.entries)))
    && (strategy == Upsert && !(old_.Table? && value.Table?) ==> new_ == value)
    && (changed <==> !Equal(old_, new_))
  }

  /** `apply_merge` reads back as its strategy says. */
  lemma MergeThenGet(d: Dict, path: seq<string>, value: Value, strategy: Strategy, toInt: IntParser)
    requires path != [] && value != Null
    ensures var (after, changed) := ApplyMerge(d, path, value, strategy);
      ReadsAsStored(d, after, changed, path, value, strategy, toInt)
  {
    TableValueIsRead(d, path, toInt);
    SetThenGet(d, path, Combined(TableValue(d, path), value, strategy), toInt);
  }

  /** A clear answers whether there was something to remove. */
  lemma ClearAnswers(d: Dict, path: seq<string>, toInt: IntParser)
    requires path != []
    ensures ClearPath(d, path).1 <==> ReadOutsideLists(d, path, toInt) != Null
  {
    ClearRemoves(d, path);
    TableValueIsRead(d, path, toInt);
  }

  /** A prefix-incomparable path is unchanged, exactly unless it holds something and a set shares a list with it. */
  lemma MergeFrameIff(d: Dict, path: seq<string>, value: Value, strategy: Strategy, other: seq<string>,
      toInt: IntParser)
    requires path != [] && Incomparable(path, other)
    ensures ValueAt(Table(ApplyMerge(d, path, value, strategy).0), other, toInt) == ValueAt(Table(d), other, toInt)
       <==> value == Null || !SharesList(d, path, other) || ValueAt(Table(d), other, toInt) == Null
  {
    if value == Null {
      ClearFrame(d, path, other, toInt);
    } else {
      SetFrame(d, path, Combined(TableValue(d, path), value, strategy), other, toInt);
    }
  }

  /** So every prefix-incomparable path is unchanged when no proper prefix of the edited path is a list. */
  lemma MergeFrame(d: Dict, path: seq<string>, value: Value, strategy: Strategy, other: seq<string>, toInt: IntParser)
    requires path != [] && Incomparable(path, other)
    requires value == Null || !ThroughList(d, path)
    ensures ValueAt(Table(ApplyMerge(d, path, value, strategy).0), other, toInt) == ValueAt(Table(d), other, toInt)
  {
    if value != Null { SharesThroughList(d, path, other); }
    MergeFrameIff(d, path, value, strategy, other, toInt);
  }

  /** A list on the way is replaced by a table: an element of it, at another index, is lost with the rest. */
  lemma ListOnTheWayIsLost(d: Dict, k: string, i: string, j: string, value: Value, strategy: Strategy, toInt: IntParser)
    requires k in d && d[k].List? && i != j && value != Null && toInt(j).Some?
      && Item(d[k].items, toInt(j).value) != Null
    ensures ValueAt(Table(d), [k, j], toInt) != Null
    ensures ValueAt(Table(ApplyMerge(d, [k, i], value, strategy).0), [k, j], toInt) == Null
  {
    var p, q := [k, i], [k, j];
    assert p[1..] == [i] && q[1..] == [j] && q[1..][1..] == [];
    assert ValueAt(Table(d), q, toInt) == ValueAt(d[k], q[1..], toInt)
      == ValueAt(Item(d[k].items, toInt(j).value), [], toInt);
    assert Incomparable(p, q) && SharesList(d, p, q);
    SetFrame(d, p, Combined(TableValue(d, p), value, strategy), q, toInt);
  }

  // ---------------------------------------------------------------- merge_toml_values

  /** Merging the same overlay again changes nothing. */
  lemma {:induction false} MergeIdempotent(b: Dict, o: Dict)
    ensures Merge(Merge(b, o), o) == Merge(b, o)
    decreases Table(o)
  {
    var m := Merge(b, o);
    forall k | k in o && o[k].Table? ensures Merge(o[k].entries, o[k].entries) == o[k].entries
      && (k in b && b[k].Table?
        ==> Merge(Merge(b[k].entries, o[k].entries), o[k].entries) == Merge(b[k].entries, o[k].entries)) {
      MergeSelf(o[k].entries);
      if k in b && b[k].Table? { MergeIdempotent(b[k].entries, o[k].entries); }
    }
    assert Merge(m, o).Keys == m.Keys;
  }

  lemma {:induction false} MergeSelf(o: Dict)
    ensures Merge(o, o) == o
    decreases Table(o)
  {
    forall k | k in o && o[k].Table? ensures Merge(o[k].entries, o[k].entries) == o[k].entries {
      MergeSelf(o[k].entries);
    }
    assert Merge(o, o).Keys == o.Keys;
  }

  /** The overlay neither names the path nor replaces a table on the way to it. */
  predicate Untouched(b: Dict, o: Dict, path: seq<string>)
    requires path != []
    decreases |path|
  {
    path[0] !in o ||
    (|path| > 1 && path[0] in b && b[path[0]].Table? && o[path[0]].Table?
      && Untouched(b[path[0]].entries, o[path[0]].entries, path[1..]))
  }

  /** Base paths the overlay does not touch keep their value. */
  lemma {:induction false} MergeKeepsUntouched(b: Dict, o: Dict, path: seq<string>, toInt: IntParser)
    requires path != [] && Untouched(b, o, path)
    ensures ValueAt(Table(Merge(b, o)), path, toInt) == ValueAt(Table(b), path, toInt)
    decreases |path|
  {
    var k := path[0];
    if k in o {
      MergeKeepsUntouched(b[k].entries, o[k].entries, path[1..], toInt);
    }
  }

  /** Every value of the overlay is found in the result, except that a table over a table is merged into it. */
  lemma {:induction false} MergeTakesOverlay(b: Dict, o: Dict, path: seq<string>, toInt: IntParser)
    requires path != [] && Present(o, path) && !(TableValue(o, path).Table? && TableValue(b, path).Table?)
    ensures ValueAt(Table(Merge(b, o)), path, toInt) == TableValue(o, path)
    decreases |path|
  {
    var k := path[0];
    var m := Merge(b, o);
    if |path| == 1 {
      assert path[1..] == [];
      assert ValueAt(m[k], [], toInt) == m[k];
    } else if k in b && b[k].Table? {
      MergeTakesOverlay(b[k].entries, o[k].entries, path[1..], toInt);
    } else {
      NothingInEmpty(path[1..]);
      MergeTakesOverlay(map[], o[k].entries, path[1..], toInt);
      MergeIntoEmpty(o[k].entries);
    }
  }

  /** Where both are tables the result is one too. */
  lemma {:induction false} MergeKeepsTables(b: Dict, o: Dict, path: seq<string>, toInt: IntParser)
    requires path != [] && Present(o, path) && TableValue(o, path).Table? && TableValue(b, path).Table?
    ensures ValueAt(Table(Merge(b, o)), path, toInt).Table?
    decreases |path|
  {
    var k := path[0];
    var m := Merge(b, o);
    if |path| == 1 {
      assert path[1..] == [];
      assert ValueAt(m[k], [], toInt) == m[k];
    } else if k in b && b[k].Table? {
      MergeKeepsTables(b[k].entries, o[k].entries, path[1..], toInt);
    } else {
      NothingInEmpty(path[1..]);
    }
  }

  /** An element of a list, by an index from either end. */
  lemma ListElement(d: Dict, k: string, i: string, n: int, toInt: IntParser)
    requires k in d && d[k].List? && toInt(i) == Some(n)
    ensures var items := d[k].items;
      && (0 <= n < |items| ==> ValueAt(Table(d), [k, i], toInt) == items[n])
      && (-|items| <= n < 0 ==> ValueAt(Table(d), [k, i], toInt) == items[|items| + n])
      && (n < -|items| || n >= |items| ==> ValueAt(Table(d), [k, i], toInt) == Null)
  {
    assert [k, i][1..] == [i] && [i][1..] == [];
    assert ValueAt(d[k], [i], toInt) == ValueAt(Item(d[k].items, n), [], toInt);
  }

  lemma {:induction false} MergeIntoEmpty(o: Dict)
    ensures Merge(map[], o) == o
  {
  }
}
