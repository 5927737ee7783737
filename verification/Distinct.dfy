/** Lists that push an element only if it is not there yet. */
module Distinct {
  ghost predicate NoRepeats<T>(s: seq<T>)
  {
    forall i, j :: 0 <= i < j < |s| ==> s[i] != s[j]
  }

  /** Push each value that is not there yet. */
  function AddNew<T(==)>(out: seq<T>, vs: seq<T>): seq<T>
  {
    if vs == [] then out
    else
      var r := AddNew(out, vs[..|vs| - 1]);
      if vs[|vs| - 1] in r then r else r + [vs[|vs| - 1]]
  }

  lemma {:induction false} AddNewMembers<T>(out: seq<T>, vs: seq<T>, a: T)
    ensures a in AddNew(out, vs) <==> a in out || a in vs
    ensures NoRepeats(out) ==> NoRepeats(AddNew(out, vs))
    ensures out <= AddNew(out, vs)
  {
    if vs != [] {
      AddNewMembers(out, vs[..|vs| - 1], a);
      assert vs == vs[..|vs| - 1] + [vs[|vs| - 1]];
    }
  }

  lemma {:induction false} AddNewConcat<T>(out: seq<T>, a: seq<T>, b: seq<T>)
    ensures AddNew(out, a + b) == AddNew(AddNew(out, a), b)
  {
    if b == [] {
      assert a + b == a;
    } else {
      assert (a + b)[..|a + b| - 1] == a + b[..|b| - 1];
      AddNewConcat(out, a, b[..|b| - 1]);
    }
  }

  method PushNew<T(==)>(out0: seq<T>, values: seq<T>) returns (out: seq<T>)
    ensures out == AddNew(out0, values)
  {
    out := out0;
    for j := 0 to |values|
      invariant out == AddNew(out0, values[..j])
    {
      assert values[..j + 1][..j] == values[..j];
      if values[j] !in out {
        out := out + [values[j]];
      }
    }
    assert values[..|values|] == values;
  }
}
