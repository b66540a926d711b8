/** Swift's Optional: a value that may be absent (`nil`), and the list of the present ones. */
module Optional {
  datatype Option<+T> = None | Some(value: T)

  /** The present values, in order: what a loop keeps that appends each `if let` value. */
  function Values<T>(xs: seq<Option<T>>): (vs: seq<T>)
    ensures |vs| <= |xs|
  {
    if xs == [] then []
    else
      var last := xs[|xs| - 1];
      Values(xs[..|xs| - 1]) + (if last.Some? then [last.value] else [])
  }

  /** Extending a prefix by one more element keeps that element's value, if any. */
  lemma ValuesOfLongerPrefix<T>(xs: seq<Option<T>>, i: nat)
    requires i < |xs|
    ensures Values(xs[..i + 1]) == Values(xs[..i]) + (if xs[i].Some? then [xs[i].value] else [])
  {
    assert xs[..i + 1][..i] == xs[..i];
  }

  lemma {:induction false} ValuesAppend<T>(a: seq<Option<T>>, b: seq<Option<T>>)
    ensures Values(a + b) == Values(a) + Values(b)
    decreases |b|
  {
    if b == [] {
      assert a + b == a;
    } else {
      var b' := b[..|b| - 1];
      assert (a + b)[..|a + b| - 1] == a + b';
      assert (a + b)[|a + b| - 1] == b[|b| - 1];
      ValuesAppend(a, b');
    }
  }

  /** Nothing is dropped exactly when every value is present. */
  lemma {:induction false} ValuesComplete<T>(xs: seq<Option<T>>)
    ensures |Values(xs)| == |xs| <==> forall i :: 0 <= i < |xs| ==> xs[i].Some?
    decreases |xs|
  {
    if xs != [] {
      var n := |xs| - 1;
      var init := xs[..n];
      ValuesComplete(init);
      if forall i :: 0 <= i < |xs| ==> xs[i].Some? {
        assert forall i :: 0 <= i < n ==> init[i].Some?;
      } else {
        var j :| 0 <= j < |xs| && xs[j].None?;
        if j < n {
          assert init[j].None?;
        }
      }
    }
  }

  /** When every value is present, the i-th value kept is the i-th one. */
  lemma {:induction false} ValuesAligned<T>(xs: seq<Option<T>>)
    requires forall i :: 0 <= i < |xs| ==> xs[i].Some?
    ensures |Values(xs)| == |xs|
    ensures forall i :: 0 <= i < |xs| ==> Values(xs)[i] == xs[i].value
    decreases |xs|
  {
    if xs != [] {
      var n := |xs| - 1;
      var init := xs[..n];
      assert forall i :: 0 <= i < n ==> init[i] == xs[i];
      ValuesAligned(init);
      assert Values(xs) == Values(init) + [xs[n].value];
    }
  }

  /**
    `vs` are the present values of `xs`, in order: `chosen` lists the
    indices of the present values in increasing order, and `vs[k]` is the
    value at index `chosen[k]`.
   */
  ghost predicate Selection<T>(xs: seq<Option<T>>, chosen: seq<nat>, vs: seq<T>)
  {
    && |chosen| == |vs|
    && (forall k :: 0 <= k < |chosen| ==> chosen[k] < |xs| && xs[chosen[k]] == Some(vs[k]))
    && (forall k, l :: 0 <= k < l < |chosen| ==> chosen[k] < chosen[l])
    && (forall i :: 0 <= i < |xs| && xs[i].Some? ==> i in chosen)
  }

  lemma SelectionSkipsAbsent<T>(xs: seq<Option<T>>, chosen: seq<nat>, vs: seq<T>)
    requires xs != [] && xs[|xs| - 1].None?
    requires Selection(xs[..|xs| - 1], chosen, vs)
    ensures Selection(xs, chosen, vs)
  {
    var n := |xs| - 1;
    assert forall i :: 0 <= i < n ==> xs[..n][i] == xs[i];
  }

  lemma SelectionTakesPresent<T>(xs: seq<Option<T>>, chosen: seq<nat>, vs: seq<T>)
    requires xs != [] && xs[|xs| - 1].Some?
    requires Selection(xs[..|xs| - 1], chosen, vs)
    ensures Selection(xs, chosen + [|xs| - 1], vs + [xs[|xs| - 1].value])
  {
    var n := |xs| - 1;
    var chosen', vs' := chosen + [n], vs + [xs[n].value];
    assert forall i :: 0 <= i < n ==> xs[..n][i] == xs[i];
    forall i | 0 <= i < |xs| && xs[i].Some?
      ensures i in chosen'
    {
      if i < n {
        assert xs[..n][i].Some?;
        var k :| 0 <= k < |chosen| && chosen[k] == i;
        assert chosen'[k] == i;
      } else {
        assert chosen'[|chosen|] == n;
      }
    }
  }

  /** The values kept are exactly the present ones, in order. */
  lemma {:induction false} ValuesSelect<T>(xs: seq<Option<T>>) returns (chosen: seq<nat>)
    ensures Selection(xs, chosen, Values(xs))
    decreases |xs|
  {
    if xs == [] {
      chosen := [];
    } else {
      var n := |xs| - 1;
      var c := ValuesSelect(xs[..n]);
      if xs[n].Some? {
        SelectionTakesPresent(xs, c, Values(xs[..n]));
        chosen := c + [n];
      } else {
        SelectionSkipsAbsent(xs, c, Values(xs[..n]));
        chosen := c;
      }
    }
  }

  /**
    A dropped value shifts every later one a place forward: if values
    0..j-1 are present, value j is absent and value j+1 is present, then
    slot j holds value j+1.
   */
  lemma ValuesAfterGap<T>(xs: seq<Option<T>>, j: nat)
    requires j + 1 < |xs|
    requires forall i :: 0 <= i < j ==> xs[i].Some?
    requires xs[j].None? && xs[j + 1].Some?
    ensures |Values(xs)| > j
    ensures forall i :: 0 <= i < j ==> Values(xs)[i] == xs[i].value
    ensures Values(xs)[j] == xs[j + 1].value
  {
    var front, back := xs[..j], xs[j + 2..];
    assert xs == front + [xs[j]] + [xs[j + 1]] + back;
    ValuesAligned(front);
    assert Values([xs[j]]) == [] by {
      assert [xs[j]][..0] == [];
    }
    assert Values([xs[j + 1]]) == [xs[j + 1].value] by {
      assert [xs[j + 1]][..0] == [];
    }
    ValuesAppend(front, [xs[j]]);
    ValuesAppend(front + [xs[j]], [xs[j + 1]]);
    ValuesAppend(front + [xs[j]] + [xs[j + 1]], back);
  }
}
