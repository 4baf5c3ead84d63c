/** Allocation, copying and comparison of slot groups: the `new byte[n][k]`
    allocations, the `Arrays.copyOf` loops of the constructors and the
    `Arrays.deepEquals` calls of the three cube classes. A group is an array whose
    slots hold colour tuples. */
module Slots {

  /** `new byte[count][size]`: `count` slots of `size` zeros. */
  method NewGroup(count: nat, size: nat) returns (group: array<seq<int>>)
    ensures fresh(group) && group.Length == count
    ensures forall k :: 0 <= k < count ==> group[k] == seq(size, _ => 0)
  {
    group := new seq<int>[count](_ => seq(size, _ => 0));
  }

  /** The solved constructors: slot `i` is filled with `Arrays.copyOf(cubies[...])`,
      one slot at a time. */
  method GroupOf(tuples: seq<seq<int>>) returns (group: array<seq<int>>)
    ensures fresh(group) && group[..] == tuples
  {
    group := new seq<int>[|tuples|];
    for i := 0 to |tuples|
      invariant forall k :: 0 <= k < i ==> group[k] == tuples[k]
    {
      group[i] := tuples[i];
    }
  }

  /** The copy constructors: every slot is `Arrays.copyOf` of the source's slot. */
  method CopyGroup(source: array<seq<int>>) returns (group: array<seq<int>>)
    ensures fresh(group) && group[..] == source[..]
  {
    group := new seq<int>[source.Length];
    for i := 0 to source.Length
      invariant forall k :: 0 <= k < i ==> group[k] == source[k]
    {
      group[i] := source[i];
    }
  }

  /** `Arrays.equals` on two tuples: equal lengths and equal entries. */
  method TupleEquals(a: seq<int>, b: seq<int>) returns (r: bool)
    ensures r <==> a == b
  {
    if |a| != |b| {
      return false;
    }
    for i := 0 to |a|
      invariant a[..i] == b[..i]
    {
      if a[i] != b[i] {
        return false;
      }
      assert a[..i + 1] == a[..i] + [a[i]];
      assert b[..i + 1] == b[..i] + [b[i]];
    }
    assert a == a[..|a|] && b == b[..|b|];
    return true;
  }

  /** `Arrays.deepEquals` on two groups: the same number of slots, and equal tuples slot
      by slot. */
  method GroupEquals(a: array<seq<int>>, b: array<seq<int>>) returns (r: bool)
    ensures r <==> a[..] == b[..]
  {
    if a.Length != b.Length {
      return false;
    }
    for i := 0 to a.Length
      invariant forall k :: 0 <= k < i ==> a[k] == b[k]
    {
      var same := TupleEquals(a[i], b[i]);
      if !same {
        assert a[..][i] != b[..][i];
        return false;
      }
    }
    return true;
  }
}
