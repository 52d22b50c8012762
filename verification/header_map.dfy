/**
 * The header map of the `http` crate, as far as the codec uses it: names
 * are lower-case byte strings, each name keeps its values in the order
 * they were added, names keep the order they first appeared in until a
 * removal moves the last name into the removed one's place, and iteration
 * yields every (name, value) pair in that order.
 */
module HeaderMaps {
  import opened Wrappers
  import opened Bytes

  /** `transfer-encoding` */
  const TRANSFER_ENCODING: seq<Byte> := [116, 114, 97, 110, 115, 102, 101, 114, 45, 101, 110, 99, 111, 100, 105, 110, 103]
  /** `content-length` */
  const CONTENT_LENGTH: seq<Byte> := [99, 111, 110, 116, 101, 110, 116, 45, 108, 101, 110, 103, 116, 104]
  /** `chunked`, the transfer coding */
  const CHUNKED: seq<Byte> := [99, 104, 117, 110, 107, 101, 100]

  datatype Entry = Entry(name: seq<Byte>, values: seq<seq<Byte>>)

  datatype HeaderMap = HeaderMap(entries: seq<Entry>)

  /** Distinct names, each with at least one value. */
  predicate Valid(m: HeaderMap)
  {
    && (forall i | 0 <= i < |m.entries| :: m.entries[i].values != [])
    && (forall i, j | 0 <= i < j < |m.entries| :: m.entries[i].name != m.entries[j].name)
  }

  function Empty(): (m: HeaderMap)
    ensures Valid(m) && Iter(m) == []
  {
    HeaderMap([])
  }

  /** Where `name` sits among the entries, if it is there. */
  function IndexOf(entries: seq<Entry>, name: seq<Byte>): (r: Option<nat>)
    ensures r.Some? ==> r.value < |entries| && entries[r.value].name == name
    ensures r.Some? ==> forall k | 0 <= k < r.value :: entries[k].name != name
    ensures r.None? ==> forall k | 0 <= k < |entries| :: entries[k].name != name
  {
    if entries == [] then None
    else if entries[0].name == name then Some(0)
    else match IndexOf(entries[1..], name)
      case None => None
      case Some(i) => Some(i + 1)
  }

  /** Every value of `name`, in the order they were added. */
  function GetAll(m: HeaderMap, name: seq<Byte>): (r: seq<seq<Byte>>)
    ensures r != [] ==> ContainsKey(m, name)
    ensures Valid(m) && ContainsKey(m, name) ==> r != []
  {
    match IndexOf(m.entries, name)
    case None => []
    case Some(i) => m.entries[i].values
  }

  /** The first value of `name` (`HeaderMap::get`). */
  function Get(m: HeaderMap, name: seq<Byte>): (r: Option<seq<Byte>>)
    requires Valid(m)
    ensures r.None? <==> GetAll(m, name) == []
    ensures r.Some? ==> r.value == GetAll(m, name)[0]
  {
    match IndexOf(m.entries, name)
    case None => None
    case Some(i) => Some(m.entries[i].values[0])
  }

  predicate ContainsKey(m: HeaderMap, name: seq<Byte>)
  {
    IndexOf(m.entries, name).Some?
  }

  /** Adds a value after those `name` already has (`HeaderMap::append`). */
  function Append(m: HeaderMap, name: seq<Byte>, value: seq<Byte>): (r: HeaderMap)
    requires Valid(m)
    ensures Valid(r)
    ensures GetAll(r, name) == GetAll(m, name) + [value]
    ensures forall k | k != name :: GetAll(r, k) == GetAll(m, k)
  {
    match IndexOf(m.entries, name)
    case None =>
      var r := HeaderMap(m.entries + [Entry(name, [value])]);
      assert forall k | k != name :: IndexOf(r.entries, k) == IndexOf(m.entries, k) by {
        forall k | k != name ensures IndexOf(r.entries, k) == IndexOf(m.entries, k) {
          IndexOfSnoc(m.entries, Entry(name, [value]), k);
        }
      }
      IndexOfSnoc(m.entries, Entry(name, [value]), name);
      r
    case Some(i) =>
      var r := HeaderMap(m.entries[i := Entry(name, m.entries[i].values + [value])]);
      SameNamesSameIndex(m.entries, r.entries);
      r
  }

  /** Makes `value` the only value of `name` (`HeaderMap::insert`). */
  function Insert(m: HeaderMap, name: seq<Byte>, value: seq<Byte>): (r: HeaderMap)
    requires Valid(m)
    ensures Valid(r)
    ensures GetAll(r, name) == [value]
    ensures forall k | k != name :: GetAll(r, k) == GetAll(m, k)
  {
    match IndexOf(m.entries, name)
    case None => Append(m, name, value)
    case Some(i) =>
      var r := HeaderMap(m.entries[i := Entry(name, [value])]);
      SameNamesSameIndex(m.entries, r.entries);
      r
  }

  /**
   * Overwrites the first value of `name` and keeps the others (assigning
   * through `HeaderMap::get_mut`).
   */
  function SetFirst(m: HeaderMap, name: seq<Byte>, value: seq<Byte>): (r: HeaderMap)
    requires Valid(m) && ContainsKey(m, name)
    ensures Valid(r)
    ensures GetAll(r, name) == [value] + GetAll(m, name)[1..]
    ensures forall k | k != name :: GetAll(r, k) == GetAll(m, k)
  {
    var i := IndexOf(m.entries, name).value;
    var r := HeaderMap(m.entries[i := Entry(name, [value] + m.entries[i].values[1..])]);
    SameNamesSameIndex(m.entries, r.entries);
    r
  }

  /**
   * Drops `name` and every value it has (`HeaderMap::remove`). The map's
   * entries are a vector that loses the entry by `swap_remove`: the last
   * entry moves into the removed one's place.
   */
  function Remove(m: HeaderMap, name: seq<Byte>): (r: HeaderMap)
    requires Valid(m)
    ensures Valid(r)
    ensures GetAll(r, name) == []
    ensures forall k | k != name :: GetAll(r, k) == GetAll(m, k)
    ensures !ContainsKey(m, name) ==> r == m
    ensures ContainsKey(m, name) ==> |r.entries| + 1 == |m.entries|
  {
    match IndexOf(m.entries, name)
    case None => m
    case Some(i) =>
      var r := HeaderMap(SwapRemove(m.entries, i));
      SwapRemoveValid(m.entries, i);
      forall k ensures GetAll(r, k) == if k == name then [] else GetAll(m, k) {
        SwapRemoveLookup(m.entries, i, k);
      }
      r
  }

  /** `Vec::swap_remove`: the entry at `i` goes and the last entry takes its place. */
  function SwapRemove(entries: seq<Entry>, i: nat): (r: seq<Entry>)
    requires i < |entries|
    ensures |r| + 1 == |entries|
    ensures forall j | 0 <= j < |r| :: r[j] == entries[if j == i then |entries| - 1 else j]
  {
    var last := |entries| - 1;
    if i == last then entries[..last] else entries[..last][i := entries[last]]
  }

  /** With distinct names, each entry is where lookup finds its name. */
  lemma IndexOfAt(entries: seq<Entry>, j: nat)
    requires j < |entries|
    requires forall a, b | 0 <= a < b < |entries| :: entries[a].name != entries[b].name
    ensures IndexOf(entries, entries[j].name) == Some(j)
  {
  }

  lemma SwapRemoveValid(entries: seq<Entry>, i: nat)
    requires i < |entries| && Valid(HeaderMap(entries))
    ensures Valid(HeaderMap(SwapRemove(entries, i)))
  {
    var r := SwapRemove(entries, i);
    var last := |entries| - 1;
    forall a, b | 0 <= a < b < |r| ensures r[a].name != r[b].name {
      var a' := if a == i then last else a;
      var b' := if b == i then last else b;
      assert a' != b';
      if a' < b' {
        assert entries[a'].name != entries[b'].name;
      } else {
        assert entries[b'].name != entries[a'].name;
      }
    }
    forall a | 0 <= a < |r| ensures r[a].values != [] {
      assert r[a] == entries[if a == i then last else a];
    }
  }

  lemma SwapRemoveLookup(entries: seq<Entry>, i: nat, k: seq<Byte>)
    requires i < |entries| && Valid(HeaderMap(entries))
    ensures var name := entries[i].name;
            GetAll(HeaderMap(SwapRemove(entries, i)), k) == if k == name then [] else GetAll(HeaderMap(entries), k)
  {
    var r := SwapRemove(entries, i);
    var last := |entries| - 1;
    SwapRemoveValid(entries, i);
    if k == entries[i].name {
      forall j | 0 <= j < |r| ensures r[j].name != k {
        var j' := if j == i then last else j;
        assert r[j] == entries[j'] && j' != i;
        assert entries[j'].name != entries[i].name;
      }
    } else {
      match IndexOf(entries, k)
      case None =>
        forall j | 0 <= j < |r| ensures r[j].name != k {
          assert r[j] == entries[if j == i then last else j];
        }
      case Some(j) =>
        var j' := if j == last then i else j;
        assert r[j'] == entries[j];
        IndexOfAt(r, j');
    }
  }

  /**
   * Removal as iteration sees it: the name's pairs go, and the last name's
   * pairs move up into their place.
   */
  lemma RemoveIter(m: HeaderMap, name: seq<Byte>)
    requires Valid(m) && ContainsKey(m, name)
    ensures var e := m.entries;
            var i := IndexOf(e, name).value;
            var last := |e| - 1;
            Iter(Remove(m, name))
              == if i == last then Flatten(e[..i])
                 else Flatten(e[..i]) + Pairs(e[last].name, e[last].values) + Flatten(e[i + 1..last])
  {
    var e := m.entries;
    var i := IndexOf(e, name).value;
    var last := |e| - 1;
    RemoveEntries(m, name);
    if i < last {
      SwapRemoveShape(e, i);
      FlattenAppend(e[..i] + [e[last]], e[i + 1..last]);
      FlattenSnoc(e[..i], e[last]);
    } else {
      assert SwapRemove(e, i) == e[..i];
    }
  }

  lemma RemoveEntries(m: HeaderMap, name: seq<Byte>)
    requires Valid(m) && ContainsKey(m, name)
    ensures Remove(m, name).entries == SwapRemove(m.entries, IndexOf(m.entries, name).value)
  {
  }

  lemma SwapRemoveShape(e: seq<Entry>, i: nat)
    requires i < |e| - 1
    ensures SwapRemove(e, i) == e[..i] + [e[|e| - 1]] + e[i + 1..|e| - 1]
  {
    var r := SwapRemove(e, i);
    var s := e[..i] + [e[|e| - 1]] + e[i + 1..|e| - 1];
    assert |r| == |s|;
    forall j | 0 <= j < |r| ensures r[j] == s[j] {
      if j > i {
        assert s[j] == e[i + 1..|e| - 1][j - i - 1];
      }
    }
  }

  /**
   * The source's compression reorders the head: with three headers, taking
   * out the first moves the third into its place, before the new one goes
   * at the end.
   */
  lemma RemoveMovesLastEntry(a: seq<Byte>, b: seq<Byte>, c: seq<Byte>, d: seq<Byte>, x: seq<Byte>, y: seq<Byte>, z: seq<Byte>, w: seq<Byte>)
    requires a != b && a != c && a != d && b != c && b != d && c != d
    ensures var m := Append(Append(Append(Empty(), a, x), b, y), c, z);
            Iter(Append(Remove(m, a), d, w)) == [(c, z), (b, y), (d, w)]
  {
    ThreeAppends(a, b, c, x, y, z);
    RemoveFirstOfThree(Entry(a, [x]), Entry(b, [y]), Entry(c, [z]));
    AppendToTwo(Entry(c, [z]), Entry(b, [y]), d, w);
  }

  lemma ThreeAppends(a: seq<Byte>, b: seq<Byte>, c: seq<Byte>, x: seq<Byte>, y: seq<Byte>, z: seq<Byte>)
    requires a != b && a != c && b != c
    ensures Append(Append(Append(Empty(), a, x), b, y), c, z).entries == [Entry(a, [x]), Entry(b, [y]), Entry(c, [z])]
  {
    var m1 := Append(Empty(), a, x);
    AppendNew(Empty(), a, x);
    assert m1.entries == [Entry(a, [x])];
    var m2 := Append(m1, b, y);
    AppendNew(m1, b, y);
    assert m2.entries == [Entry(a, [x]), Entry(b, [y])];
    AppendNew(m2, c, z);
  }

  lemma RemoveFirstOfThree(e0: Entry, e1: Entry, e2: Entry)
    requires Valid(HeaderMap([e0, e1, e2]))
    ensures Remove(HeaderMap([e0, e1, e2]), e0.name).entries == [e2, e1]
  {
    IndexOfAt([e0, e1, e2], 0);
  }

  lemma AppendToTwo(e0: Entry, e1: Entry, d: seq<Byte>, w: seq<Byte>)
    requires |e0.values| == 1 && |e1.values| == 1
    requires Valid(HeaderMap([e0, e1])) && d != e0.name && d != e1.name
    ensures Iter(Append(HeaderMap([e0, e1]), d, w)) == [(e0.name, e0.values[0]), (e1.name, e1.values[0]), (d, w)]
  {
    var r := HeaderMap([e0, e1]);
    assert !ContainsKey(r, d);
    AppendNew(r, d, w);
    assert Append(r, d, w).entries == [e0] + ([e1] + [Entry(d, [w])]);
    FlattenAppend([e0], [e1] + [Entry(d, [w])]);
    FlattenAppend([e1], [Entry(d, [w])]);
    FlattenOne(e0);
    FlattenOne(e1);
    FlattenOne(Entry(d, [w]));
  }

  lemma FlattenOne(e: Entry)
    requires |e.values| == 1
    ensures Flatten([e]) == [(e.name, e.values[0])]
  {
    assert [e][1..] == [];
  }

  /** Appending a value of a new name adds its entry at the end. */
  lemma AppendNew(m: HeaderMap, name: seq<Byte>, value: seq<Byte>)
    requires Valid(m) && !ContainsKey(m, name)
    ensures Append(m, name, value).entries == m.entries + [Entry(name, [value])]
  {
  }

  /** Every (name, value) pair: names in order, each name's values in order. */
  function Iter(m: HeaderMap): seq<(seq<Byte>, seq<Byte>)>
  {
    Flatten(m.entries)
  }

  function Pairs(name: seq<Byte>, values: seq<seq<Byte>>): (r: seq<(seq<Byte>, seq<Byte>)>)
    ensures |r| == |values|
    ensures forall i | 0 <= i < |values| :: r[i] == (name, values[i])
  {
    if values == [] then [] else [(name, values[0])] + Pairs(name, values[1..])
  }

  function Flatten(entries: seq<Entry>): seq<(seq<Byte>, seq<Byte>)>
  {
    if entries == [] then [] else Pairs(entries[0].name, entries[0].values) + Flatten(entries[1..])
  }

  /** The number of values (`HeaderMap::len`). */
  function Len(m: HeaderMap): nat
  {
    |Iter(m)|
  }

  lemma {:induction false} IndexOfSnoc(entries: seq<Entry>, e: Entry, k: seq<Byte>)
    requires IndexOf(entries, e.name).None?
    ensures IndexOf(entries + [e], k) == if k == e.name then Some(|entries|) else IndexOf(entries, k)
  {
    if entries != [] {
      assert (entries + [e])[1..] == entries[1..] + [e];
      IndexOfSnoc(entries[1..], e, k);
    }
  }

  lemma {:induction false} SameNamesSameIndex(xs: seq<Entry>, ys: seq<Entry>)
    requires |xs| == |ys| && forall i | 0 <= i < |xs| :: xs[i].name == ys[i].name
    ensures forall k :: IndexOf(ys, k) == IndexOf(xs, k)
  {
    forall k ensures IndexOf(ys, k) == IndexOf(xs, k) {
      SameNamesAt(xs, ys, k);
    }
  }

  lemma {:induction false} SameNamesAt(xs: seq<Entry>, ys: seq<Entry>, k: seq<Byte>)
    requires |xs| == |ys| && forall i | 0 <= i < |xs| :: xs[i].name == ys[i].name
    ensures IndexOf(ys, k) == IndexOf(xs, k)
  {
    if xs != [] {
      SameNamesAt(xs[1..], ys[1..], k);
    }
  }

  lemma {:induction false} FlattenAppend(xs: seq<Entry>, ys: seq<Entry>)
    ensures Flatten(xs + ys) == Flatten(xs) + Flatten(ys)
    decreases |xs|
  {
    if xs == [] {
      assert xs + ys == ys;
    } else {
      assert (xs + ys)[1..] == xs[1..] + ys;
      FlattenAppend(xs[1..], ys);
    }
  }

  lemma {:induction false} FlattenSnoc(entries: seq<Entry>, e: Entry)
    ensures Flatten(entries + [e]) == Flatten(entries) + Pairs(e.name, e.values)
  {
    if entries == [] {
      assert entries + [e] == [e];
      assert [e][1..] == [];
    } else {
      assert (entries + [e])[1..] == entries[1..] + [e];
      FlattenSnoc(entries[1..], e);
    }
  }

  /** Appending a value of a new name adds exactly that pair at the end of iteration. */
  lemma AppendNewIter(m: HeaderMap, name: seq<Byte>, value: seq<Byte>)
    requires Valid(m) && !ContainsKey(m, name)
    ensures Iter(Append(m, name, value)) == Iter(m) + [(name, value)]
    ensures Len(Append(m, name, value)) == Len(m) + 1
  {
    FlattenSnoc(m.entries, Entry(name, [value]));
  }

  lemma PairsMember(n: seq<Byte>, values: seq<seq<Byte>>, name: seq<Byte>, v: seq<Byte>)
    ensures (name, v) in Pairs(n, values) <==> name == n && v in values
  {
    var r := Pairs(n, values);
    if (name, v) in r {
      var i :| 0 <= i < |r| && r[i] == (name, v);
      assert values[i] == v;
    }
    if name == n && v in values {
      var i :| 0 <= i < |values| && values[i] == v;
      assert r[i] == (name, v);
    }
  }

  lemma {:induction false} FlattenMember(entries: seq<Entry>, name: seq<Byte>, v: seq<Byte>)
    requires forall i, j | 0 <= i < j < |entries| :: entries[i].name != entries[j].name
    ensures (name, v) in Flatten(entries) <==> IndexOf(entries, name).Some? && v in entries[IndexOf(entries, name).value].values
    decreases |entries|
  {
    if entries != [] {
      var rest := entries[1..];
      assert forall i, j | 0 <= i < j < |rest| :: rest[i].name != rest[j].name by {
        forall i, j | 0 <= i < j < |rest| ensures rest[i].name != rest[j].name {
          assert rest[i] == entries[i + 1] && rest[j] == entries[j + 1];
        }
      }
      FlattenMember(rest, name, v);
      PairsMember(entries[0].name, entries[0].values, name, v);
    }
  }

  /**
   * Iteration yields a (name, value) pair exactly when the value is one of
   * the name's values.
   */
  lemma IterHoldsValues(m: HeaderMap, name: seq<Byte>, v: seq<Byte>)
    requires Valid(m)
    ensures (name, v) in Iter(m) <==> v in GetAll(m, name)
  {
    FlattenMember(m.entries, name, v);
  }

  /** How many values the entries hold between them. */
  function ValueCount(entries: seq<Entry>): nat
  {
    if entries == [] then 0 else |entries[0].values| + ValueCount(entries[1..])
  }

  lemma {:induction false} FlattenLength(entries: seq<Entry>)
    ensures |Flatten(entries)| == ValueCount(entries)
  {
    if entries != [] {
      FlattenLength(entries[1..]);
    }
  }

  lemma {:induction false} ValueCountUpdate(entries: seq<Entry>, i: nat, e: Entry)
    requires i < |entries|
    ensures ValueCount(entries[i := e]) + |entries[i].values| == ValueCount(entries) + |e.values|
  {
    if i == 0 {
      assert entries[i := e][1..] == entries[1..];
    } else {
      assert entries[i := e][1..] == entries[1..][i - 1 := e];
      ValueCountUpdate(entries[1..], i - 1, e);
    }
  }

  /** `append` always adds exactly one value, whether or not the name was present. */
  lemma AppendLen(m: HeaderMap, name: seq<Byte>, value: seq<Byte>)
    requires Valid(m)
    ensures Len(Append(m, name, value)) == Len(m) + 1
  {
    var r := Append(m, name, value);
    FlattenLength(m.entries);
    FlattenLength(r.entries);
    match IndexOf(m.entries, name)
    case None =>
      FlattenSnoc(m.entries, Entry(name, [value]));
    case Some(i) =>
      ValueCountUpdate(m.entries, i, Entry(name, m.entries[i].values + [value]));
  }
}
