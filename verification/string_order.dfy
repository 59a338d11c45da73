/** The ordering JavaScript's default `Array.prototype.sort` uses on strings (character
    by character, a proper prefix first), and sorted duplicate-free lists built with it:
    the model of `Array.from(new Set(xs)).sort()`. */
module StringOrder {

  /** `a` sorts strictly before `b`. */
  predicate Less(a: string, b: string)
    decreases |a|
  {
    |b| > 0 && (|a| == 0 || a[0] < b[0] || (a[0] == b[0] && Less(a[1..], b[1..])))
  }

  lemma {:induction false} LessIrreflexive(a: string)
    ensures !Less(a, a)
    decreases |a|
  {
    if |a| > 0 {
      LessIrreflexive(a[1..]);
    }
  }

  lemma {:induction false} LessTransitive(a: string, b: string, c: string)
    requires Less(a, b) && Less(b, c)
    ensures Less(a, c)
    decreases |a|
  {
    if |a| > 0 && a[0] == b[0] && b[0] == c[0] {
      LessTransitive(a[1..], b[1..], c[1..]);
    }
  }

  lemma {:induction false} LessTotal(a: string, b: string)
    requires a != b
    ensures Less(a, b) || Less(b, a)
    decreases |a|
  {
    if |a| > 0 && |b| > 0 && a[0] == b[0] {
      assert a == [a[0]] + a[1..] && b == [b[0]] + b[1..];
      LessTotal(a[1..], b[1..]);
    }
  }

  /** Strictly ascending, hence also free of duplicates. */
  predicate StrictlySorted(xs: seq<string>) {
    forall i, j :: 0 <= i < j < |xs| ==> Less(xs[i], xs[j])
  }

  /** Add `x` to a strictly sorted list, keeping it strictly sorted (nothing happens
      when `x` is already there). */
  function Insert(x: string, xs: seq<string>): (r: seq<string>)
    requires StrictlySorted(xs)
    ensures StrictlySorted(r)
    ensures forall y :: y in r <==> y == x || y in xs
    decreases |xs|
  {
    if |xs| == 0 then [x]
    else if x == xs[0] then xs
    else if Less(x, xs[0]) then
      assert StrictlySorted([x] + xs) by {
        forall i, j | 0 <= i < j < |[x] + xs| ensures Less(([x] + xs)[i], ([x] + xs)[j]) {
          if i == 0 && j > 1 { LessTransitive(x, xs[0], xs[j - 1]); }
        }
      }
      [x] + xs
    else
      LessTotal(x, xs[0]);
      var rest := Insert(x, xs[1..]);
      assert StrictlySorted([xs[0]] + rest) by {
        forall i, j | 0 <= i < j < |[xs[0]] + rest| ensures Less(([xs[0]] + rest)[i], ([xs[0]] + rest)[j]) {
          if i == 0 {
            var y := rest[j - 1];
            assert y in rest;
            if y != x {
              assert y in xs[1..];
            }
          }
        }
      }
      [xs[0]] + rest
  }

  /** Every string of `xs` added to `acc`, in the order of `xs`. */
  function InsertAll(xs: seq<string>, acc: seq<string>): (r: seq<string>)
    requires StrictlySorted(acc)
    ensures StrictlySorted(r)
    ensures forall y :: y in r <==> y in xs || y in acc
    decreases |xs|
  {
    if |xs| == 0 then acc else InsertAll(xs[1..], Insert(xs[0], acc))
  }

  lemma {:induction false} LessAsymmetric(a: string, b: string)
    ensures !(Less(a, b) && Less(b, a))
    decreases |a|
  {
    if |a| > 0 && |b| > 0 && a[0] == b[0] {
      LessAsymmetric(a[1..], b[1..]);
    }
  }

  /** The head of a strictly sorted list sorts before every other element. */
  lemma HeadLeast(xs: seq<string>)
    requires StrictlySorted(xs) && |xs| > 0
    ensures forall y :: y in xs ==> y == xs[0] || Less(xs[0], y)
  {}

  /** A strictly sorted list is determined by its elements: the sorted, de-duplicated
      result does not depend on the order in which the strings were collected. */
  lemma {:induction false} SortedUnique(xs: seq<string>, ys: seq<string>)
    requires StrictlySorted(xs) && StrictlySorted(ys)
    requires forall y :: y in xs <==> y in ys
    ensures xs == ys
    decreases |xs|
  {
    assert |xs| > 0 ==> xs[0] in ys;
    assert |ys| > 0 ==> ys[0] in xs;
    if |xs| > 0 && |ys| > 0 {
      assert xs[0] in ys && ys[0] in xs;
      HeadLeast(xs);
      HeadLeast(ys);
      LessAsymmetric(xs[0], ys[0]);
      assert xs[0] == ys[0];
      forall y ensures y in xs[1..] <==> y in ys[1..] {
        LessIrreflexive(y);
        if y in xs[1..] {
          var i :| 1 <= i < |xs| && xs[i] == y;
          assert Less(xs[0], y);
          assert y in ys;
        }
        if y in ys[1..] {
          var i :| 1 <= i < |ys| && ys[i] == y;
          assert Less(ys[0], y);
          assert y in xs;
        }
      }
      SortedUnique(xs[1..], ys[1..]);
    }
  }
}
