/**
 * Strings as the C++ sources use them: `std::string` is a sequence of
 * characters, and `std::string::operator<` is the lexicographic order in
 * which a proper prefix comes first. Dafny's own `<` on sequences is the
 * proper-prefix relation, so the order is defined here explicitly.
 */
module Strings {

  /** `a < b` for `std::string`: compare character by character; when one
      string runs out first, it is the smaller one. */
  predicate Less(a: string, b: string) {
    LessFrom(a, b, 0)
  }

  /** The comparison from position `i` on, when `a` and `b` agree before `i`. */
  predicate LessFrom(a: string, b: string, i: nat)
    decreases |a| - i
  {
    if |a| <= i then i < |b|
    else if |b| <= i then false
    else if a[i] != b[i] then a[i] < b[i]
    else LessFrom(a, b, i + 1)
  }

  /** `a <= b` for `std::string`. */
  predicate LessEq(a: string, b: string) {
    a == b || Less(a, b)
  }

  lemma {:induction false} LessFromIrreflexive(a: string, i: nat)
    ensures !LessFrom(a, a, i)
    decreases |a| - i
  {
    if i < |a| {
      LessFromIrreflexive(a, i + 1);
    }
  }

  lemma LessIrreflexive(a: string)
    ensures !Less(a, a)
  {
    LessFromIrreflexive(a, 0);
  }

  lemma {:induction false} LessFromTransitive(a: string, b: string, c: string, i: nat)
    requires LessFrom(a, b, i) && LessFrom(b, c, i)
    ensures LessFrom(a, c, i)
    decreases |a| - i
  {
    if i < |a| && a[i] == b[i] && b[i] == c[i] {
      LessFromTransitive(a, b, c, i + 1);
    }
  }

  lemma LessTransitive(a: string, b: string, c: string)
    requires Less(a, b) && Less(b, c)
    ensures Less(a, c)
  {
    LessFromTransitive(a, b, c, 0);
  }

  lemma {:induction false} LessFromTotal(a: string, b: string, i: nat)
    requires i <= |a| && i <= |b| && a[..i] == b[..i] && a != b
    ensures LessFrom(a, b, i) || LessFrom(b, a, i)
    decreases |a| - i
  {
    if i == |a| {
      assert a == a[..i];
    } else if i == |b| {
      assert b == b[..i];
    } else if a[i] == b[i] {
      assert a[..i + 1] == a[..i] + [a[i]] && b[..i + 1] == b[..i] + [b[i]];
      LessFromTotal(a, b, i + 1);
    }
  }

  /** Two different strings are always ordered one way or the other. */
  lemma LessTotal(a: string, b: string)
    requires a != b
    ensures Less(a, b) || Less(b, a)
  {
    LessFromTotal(a, b, 0);
  }

  lemma LessAsymmetric(a: string, b: string)
    requires Less(a, b)
    ensures !Less(b, a)
  {
    if Less(b, a) {
      LessTransitive(a, b, a);
      LessIrreflexive(a);
    }
  }

  lemma SliceOfSlice(s: string, a: nat, b: nat, i: nat, j: nat)
    requires a <= b <= |s| && i <= j <= b - a
    ensures s[a..b][i..j] == s[a + i..a + j]
  {
    var x, y := s[a..b][i..j], s[a + i..a + j];
    forall t | 0 <= t < |x|
      ensures x[t] == y[t]
    {
    }
  }

  lemma AppendAssoc<T>(a: seq<T>, b: seq<T>, c: seq<T>)
    ensures (a + b) + c == a + (b + c)
  {
  }

  /** A suffix is split in two at any point inside it. */
  lemma SliceSplit<T>(xs: seq<T>, a: nat, b: nat)
    requires a <= b <= |xs|
    ensures xs[a..] == xs[a..b] + xs[b..]
  {
  }

  /** Writing entry `i` extends the prefix before `i` by the value written. */
  lemma UpdatePrefix<T>(xs: seq<T>, i: nat, v: T)
    requires i < |xs|
    ensures xs[i := v][..i + 1] == xs[..i] + [v]
  {
  }

  /** Extending a slice by the next character. */
  lemma SliceSnoc(s: string, a: nat, b: nat)
    requires a <= b < |s|
    ensures s[a..b + 1] == s[a..b] + [s[b]]
  {
  }

  /** Concatenation of a list of strings, in order. */
  function Flatten(ss: seq<string>): (r: string)
    ensures |ss| == 1 ==> r == ss[0]
  {
    if |ss| == 0 then [] else Flatten(ss[..|ss| - 1]) + ss[|ss| - 1]
  }

  lemma FlattenSnoc(xs: seq<string>, x: string)
    ensures Flatten(xs + [x]) == Flatten(xs) + x
  {
    assert (xs + [x])[..|xs|] == xs;
  }

  lemma {:induction false} FlattenAppend(xs: seq<string>, ys: seq<string>)
    ensures Flatten(xs + ys) == Flatten(xs) + Flatten(ys)
    decreases |ys|
  {
    if |ys| == 0 {
      assert xs + ys == xs;
    } else {
      assert (xs + ys)[..|xs + ys| - 1] == xs + ys[..|ys| - 1];
      FlattenAppend(xs, ys[..|ys| - 1]);
    }
  }

  /** Putting one string in front of the list puts it in front of the concatenation. */
  lemma {:induction false} FlattenCons(x: string, ys: seq<string>)
    ensures Flatten([x] + ys) == x + Flatten(ys)
  {
    FlattenAppend([x], ys);
  }
}
