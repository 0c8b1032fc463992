/** Two ways of walking a sequence that loops in the model share: collecting
    values until the first missing one, and concatenating what each element
    contributes. */
module Sequences {
  import opened Wrappers

  /** `f`'s values for the items of `xs` as long as they are `Some`: the
      prefix a loop collects when the first `None` ends it. */
  function CollectUntilNone<T, U>(xs: seq<T>, f: T -> Option<U>): seq<U>
    decreases |xs|
  {
    if xs == [] then []
    else match f(xs[0])
      case None => []
      case Some(y) => [y] + CollectUntilNone(xs[1..], f)
  }

  lemma {:induction false} CollectUntilNoneAppend<T, U>(xs: seq<T>, ys: seq<T>, f: T -> Option<U>)
    requires forall k :: 0 <= k < |xs| ==> f(xs[k]).Some?
    ensures CollectUntilNone(xs + ys, f) == CollectUntilNone(xs, f) + CollectUntilNone(ys, f)
    decreases |xs|
  {
    if xs == [] {
      assert xs + ys == ys;
    } else {
      assert (xs + ys)[0] == xs[0] && (xs + ys)[1..] == xs[1..] + ys;
      assert f(xs[0]).Some?;
      CollectUntilNoneAppend(xs[1..], ys, f);
    }
  }

  /** One value per item: some prefix of the items contributes, each with its
      own value and in order, and all of them do exactly when none is `None`. */
  lemma {:induction false} CollectUntilNoneItems<T, U>(xs: seq<T>, f: T -> Option<U>)
    ensures |CollectUntilNone(xs, f)| <= |xs|
    ensures |CollectUntilNone(xs, f)| == |xs| <==> forall k :: 0 <= k < |xs| ==> f(xs[k]).Some?
    ensures |CollectUntilNone(xs, f)| < |xs| ==> f(xs[|CollectUntilNone(xs, f)|]).None?
    ensures forall k :: 0 <= k < |CollectUntilNone(xs, f)| ==>
      f(xs[k]).Some? && CollectUntilNone(xs, f)[k] == f(xs[k]).value
    decreases |xs|
  {
    if xs != [] && f(xs[0]).Some? {
      var tail := xs[1..];
      CollectUntilNoneItems(tail, f);
      var ys := CollectUntilNone(xs, f);
      assert ys == [f(xs[0]).value] + CollectUntilNone(tail, f);
      assert forall k :: 1 <= k < |xs| ==> xs[k] == tail[k - 1];
      forall k | 0 <= k < |ys| ensures f(xs[k]).Some? && ys[k] == f(xs[k]).value {
        if k > 0 {
          assert ys[k] == CollectUntilNone(tail, f)[k - 1];
        }
      }
      if forall k :: 0 <= k < |tail| ==> f(tail[k]).Some? {
        assert forall k :: 0 <= k < |xs| ==> f(xs[k]).Some? by {
          forall k | 0 <= k < |xs| ensures f(xs[k]).Some? {
            if k > 0 { assert xs[k] == tail[k - 1]; }
          }
        }
      }
    }
  }

  /** Once `i` items have values, the next one's value is collected after them. */
  lemma CollectUntilNoneStep<T, U>(xs: seq<T>, i: nat, f: T -> Option<U>)
    requires i < |xs| && |CollectUntilNone(xs[..i], f)| == i
    requires f(xs[i]).Some?
    ensures CollectUntilNone(xs[..i + 1], f) == CollectUntilNone(xs[..i], f) + [f(xs[i]).value]
  {
    CollectUntilNoneItems(xs[..i], f);
    assert xs[..i + 1] == xs[..i] + [xs[i]];
    CollectUntilNoneAppend(xs[..i], [xs[i]], f);
    assert CollectUntilNone([xs[i]], f) == [f(xs[i]).value] + CollectUntilNone([xs[i]][1..], f);
  }

  /** Once `i` items have values, a `None` at item `i` ends the collection. */
  lemma CollectUntilNoneStop<T, U>(xs: seq<T>, i: nat, f: T -> Option<U>)
    requires i < |xs| && |CollectUntilNone(xs[..i], f)| == i
    requires f(xs[i]).None?
    ensures CollectUntilNone(xs, f) == CollectUntilNone(xs[..i], f)
  {
    CollectUntilNoneItems(xs[..i], f);
    assert xs == xs[..i] + xs[i..];
    CollectUntilNoneAppend(xs[..i], xs[i..], f);
    var rest := xs[i..];
    assert rest != [] && rest[0] == xs[i];
    assert CollectUntilNone(rest, f) == [];
  }

  /** The items `f` yields for each element of `xs`, element by element: what
      a generator produces that yields `f(x)` for every `x` of `xs`. */
  function ConcatMap<T, U>(xs: seq<T>, f: T -> seq<U>): seq<U>
    decreases |xs|
  {
    if xs == [] then [] else ConcatMap(xs[..|xs| - 1], f) + f(xs[|xs| - 1])
  }

  lemma {:induction false} ConcatMapAppend<T, U>(xs: seq<T>, ys: seq<T>, f: T -> seq<U>)
    ensures ConcatMap(xs + ys, f) == ConcatMap(xs, f) + ConcatMap(ys, f)
    decreases |ys|
  {
    if ys == [] {
      assert xs + ys == xs;
    } else {
      var zs := xs + ys;
      assert zs[..|zs| - 1] == xs + ys[..|ys| - 1];
      assert zs[|zs| - 1] == ys[|ys| - 1];
      ConcatMapAppend(xs, ys[..|ys| - 1], f);
    }
  }

  lemma ConcatMapStep<T, U>(xs: seq<T>, i: nat, f: T -> seq<U>)
    requires i < |xs|
    ensures ConcatMap(xs[..i + 1], f) == ConcatMap(xs[..i], f) + f(xs[i])
  {
    assert xs[..i + 1][..i] == xs[..i];
  }

  lemma {:induction false} ConcatMapEmpty<T, U>(xs: seq<T>, f: T -> seq<U>)
    ensures ConcatMap(xs, f) == [] <==> forall k :: 0 <= k < |xs| ==> f(xs[k]) == []
    decreases |xs|
  {
    if xs != [] {
      var init := xs[..|xs| - 1];
      ConcatMapEmpty(init, f);
      assert forall k :: 0 <= k < |init| ==> init[k] == xs[k];
    }
  }

  /** An item is produced exactly when some element contributes it. */
  lemma {:induction false} ConcatMapMembers<T, U>(xs: seq<T>, f: T -> seq<U>)
    ensures forall y :: y in ConcatMap(xs, f) ==> exists k :: 0 <= k < |xs| && y in f(xs[k])
    ensures forall k, y :: 0 <= k < |xs| && y in f(xs[k]) ==> y in ConcatMap(xs, f)
    decreases |xs|
  {
    if xs != [] {
      var init := xs[..|xs| - 1];
      ConcatMapMembers(init, f);
      assert forall k :: 0 <= k < |init| ==> init[k] == xs[k];
    }
  }

  /** Regrouping the pieces of a log built by successive appends. */
  lemma AppendAfter3<T>(a: seq<T>, b: seq<T>, c: seq<T>, d: seq<T>)
    ensures a + b + c + d == a + (b + c + d)
  {
  }

  lemma AppendAfter4<T>(a: seq<T>, b: seq<T>, c: seq<T>, d: seq<T>, e: seq<T>)
    ensures a + b + c + d + e == a + (b + c + d + e)
  {
  }
}
