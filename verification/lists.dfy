/** The two JavaScript list idioms the response assembly relies on:
    `.filter(Boolean)` over optional strings and `Array.from(new Set(xs))`,
    which drops repeated values and keeps each one where it was first seen
    (a JavaScript `Set` iterates in insertion order).
 */
module Lists {
  import opened Optional

  predicate NoDuplicates<T(==)>(xs: seq<T>) {
    forall i, j :: 0 <= i < j < |xs| ==> xs[i] != xs[j]
  }

  /** `.filter(Boolean)`: keeps the present, non-empty strings, in order. */
  function Compact(xs: seq<Option<string>>): (r: seq<string>)
    ensures forall x :: x in r <==> x != "" && Some(x) in xs
    ensures |r| <= |xs|
    ensures |xs| > 0 && Truthy(xs[0]) ==> |r| > 0 && r[0] == xs[0].value
  {
    if |xs| == 0 then []
    else
      assert xs == [xs[0]] + xs[1..];
      if Truthy(xs[0]) then [xs[0].value] + Compact(xs[1..]) else Compact(xs[1..])
  }

  /** `.filter(Boolean)` of a single entry: its value if truthy, else nothing. */
  lemma CompactSingleton(o: Option<string>)
    ensures Compact([o]) == (if Truthy(o) then [o.value] else [])
  {
  }

  /** `.filter(Boolean)` distributes over concatenation; with
      `CompactSingleton` this fixes the result as the truthy entries' values
      in input order, repeats included. */
  lemma {:induction false} CompactAppend(xs: seq<Option<string>>, ys: seq<Option<string>>)
    ensures Compact(xs + ys) == Compact(xs) + Compact(ys)
  {
    if |xs| == 0 {
      assert xs + ys == ys;
    } else {
      assert (xs + ys)[0] == xs[0];
      assert (xs + ys)[1..] == xs[1..] + ys;
      CompactAppend(xs[1..], ys);
    }
  }

  /** `Array.from(new Set(xs))`: every value of `xs` once, at the place of its
      first occurrence. */
  function Dedup(xs: seq<string>): (r: seq<string>)
    ensures NoDuplicates(r)
    ensures forall x :: x in r <==> x in xs
    ensures |r| <= |xs|
    ensures |xs| > 0 ==> |r| > 0 && r[0] == xs[0]
  {
    if |xs| == 0 then []
    else
      var init := xs[..|xs| - 1];
      var last := xs[|xs| - 1];
      assert xs == init + [last];
      var kept := Dedup(init);
      if last in kept then kept else kept + [last]
  }

  /** Position of the first occurrence of `x` in `xs`. */
  function FirstIndex<T(==)>(xs: seq<T>, x: T): (k: nat)
    requires x in xs
    ensures k < |xs| && xs[k] == x
    ensures x !in xs[..k]
  {
    if xs[0] == x then 0
    else
      assert xs == [xs[0]] + xs[1..];
      var k' := FirstIndex(xs[1..], x);
      assert xs[..k' + 1] == [xs[0]] + xs[1..][..k'];
      k' + 1
  }

  /** Appending an element does not move the first occurrence of a value
      that was already present. */
  lemma {:induction false} FirstIndexOfPrefix<T>(xs: seq<T>, last: T, x: T)
    requires x in xs
    ensures x in xs + [last]
    ensures FirstIndex(xs + [last], x) == FirstIndex(xs, x)
  {
    if xs[0] != x {
      assert xs == [xs[0]] + xs[1..];
      assert (xs + [last])[1..] == xs[1..] + [last];
      FirstIndexOfPrefix(xs[1..], last, x);
    }
  }

  /** `Dedup` keeps first-seen order: earlier results were seen earlier. */
  lemma {:induction false} DedupKeepsFirstSeenOrder(xs: seq<string>, i: nat, j: nat)
    requires i < j < |Dedup(xs)|
    ensures Dedup(xs)[i] in xs && Dedup(xs)[j] in xs
    ensures FirstIndex(xs, Dedup(xs)[i]) < FirstIndex(xs, Dedup(xs)[j])
  {
    var init := xs[..|xs| - 1];
    var last := xs[|xs| - 1];
    assert xs == init + [last];
    var kept := Dedup(init);
    var r := Dedup(xs);
    if j < |kept| {
      assert r[i] == kept[i] && r[j] == kept[j];
      DedupKeepsFirstSeenOrder(init, i, j);
      FirstIndexOfPrefix(init, last, kept[i]);
      FirstIndexOfPrefix(init, last, kept[j]);
    } else {
      assert r == kept + [last] && last !in init;
      assert r[j] == last && r[i] == kept[i];
      FirstIndexOfPrefix(init, last, kept[i]);
    }
  }
}
