/**
 * String helpers the encoder relies on: concatenation of a list of chunks,
 * Go's `strings.Join`, and the lexicographic ordering of names.
 */
module Text {

  /** The chunks of `ss` written one after the other. */
  function Concat(ss: seq<string>): string
  {
    if ss == [] then "" else ss[0] + Concat(ss[1..])
  }

  lemma {:induction false} ConcatAppend(a: seq<string>, b: seq<string>)
    ensures Concat(a + b) == Concat(a) + Concat(b)
  {
    if a == [] {
      assert a + b == b;
    } else {
      assert (a + b)[1..] == a[1..] + b;
      ConcatAppend(a[1..], b);
    }
  }

  /** `strings.Join(xs, sep)`: the elements of `xs` in order, with `sep` between neighbours. */
  function Join(xs: seq<string>, sep: string): string
  {
    if |xs| == 0 then ""
    else if |xs| == 1 then xs[0]
    else xs[0] + sep + Join(xs[1..], sep)
  }

  /** Where element `i` of `xs` starts inside `Join(xs, sep)`. */
  function Offset(xs: seq<string>, sep: string, i: nat): nat
    requires i < |xs|
  {
    if i == 0 then 0 else |xs[0]| + |sep| + Offset(xs[1..], sep, i - 1)
  }

  lemma SliceAfterPrefix(a: string, b: string, lo: nat, hi: nat)
    requires lo <= hi <= |b|
    ensures (a + b)[|a| + lo..|a| + hi] == b[lo..hi]
  {
  }

  lemma {:induction false} OffsetStep(xs: seq<string>, sep: string, i: nat)
    requires i + 1 < |xs|
    ensures Offset(xs, sep, i + 1) == Offset(xs, sep, i) + |xs[i]| + |sep|
  {
    if i > 0 {
      OffsetStep(xs[1..], sep, i - 1);
    }
  }

  /** The joined string ends right after the last element: nothing else is added. */
  lemma {:induction false} JoinLength(xs: seq<string>, sep: string)
    requires |xs| > 0
    ensures |Join(xs, sep)| == Offset(xs, sep, |xs| - 1) + |xs[|xs| - 1]|
  {
    if |xs| > 1 {
      var t := xs[1..];
      JoinLength(t, sep);
      assert Join(xs, sep) == xs[0] + sep + Join(t, sep);
      assert t[|t| - 1] == xs[|xs| - 1];
      assert Offset(xs, sep, |xs| - 1) == |xs[0]| + |sep| + Offset(t, sep, |t| - 1);
    }
  }

  /** Element `i` appears verbatim at its offset: the list order is kept. */
  lemma {:induction false} JoinElementAt(xs: seq<string>, sep: string, i: nat)
    requires i < |xs|
    ensures Offset(xs, sep, i) + |xs[i]| <= |Join(xs, sep)|
    ensures Join(xs, sep)[Offset(xs, sep, i)..Offset(xs, sep, i) + |xs[i]|] == xs[i]
  {
    if |xs| == 1 {
      assert Join(xs, sep) == xs[0] && Offset(xs, sep, 0) == 0;
      assert xs[0][0..|xs[0]|] == xs[0];
    } else {
      var head, rest := xs[0] + sep, Join(xs[1..], sep);
      assert Join(xs, sep) == head + rest;
      if i == 0 {
        assert Offset(xs, sep, 0) == 0;
        assert (head + rest)[0..|xs[0]|] == xs[0];
      } else {
        JoinElementAt(xs[1..], sep, i - 1);
        var o := Offset(xs[1..], sep, i - 1);
        assert xs[1..][i - 1] == xs[i];
        assert Offset(xs, sep, i) == |head| + o;
        SliceAfterPrefix(head, rest, o, o + |xs[i]|);
      }
    }
  }

  /** Between two neighbouring elements stands exactly one separator (and `OffsetStep` puts the next element right after it). */
  lemma {:induction false} JoinSeparatorAt(xs: seq<string>, sep: string, i: nat)
    requires i + 1 < |xs|
    ensures Offset(xs, sep, i) + |xs[i]| + |sep| <= |Join(xs, sep)|
    ensures Join(xs, sep)[Offset(xs, sep, i) + |xs[i]|..Offset(xs, sep, i) + |xs[i]| + |sep|] == sep
  {
    var rest := Join(xs[1..], sep);
    assert Join(xs, sep) == (xs[0] + sep) + rest;
    if i == 0 {
      assert Join(xs, sep)[..|xs[0]| + |sep|] == xs[0] + sep;
    } else {
      JoinSeparatorAt(xs[1..], sep, i - 1);
      assert xs[1..][i - 1] == xs[i];
      var o := Offset(xs[1..], sep, i - 1) + |xs[i]|;
      assert Offset(xs, sep, i) + |xs[i]| == |xs[0] + sep| + o;
      SliceAfterPrefix(xs[0] + sep, rest, o, o + |sep|);
    }
  }

  /** Byte-wise (here: character-wise) lexicographic order, as Go's `<` on strings. */
  predicate Less(a: string, b: string)
  {
    if |a| == 0 then |b| > 0
    else |b| > 0 && (a[0] < b[0] || (a[0] == b[0] && Less(a[1..], b[1..])))
  }

  /** Two strings that agree before position `i` and differ there are ordered by their characters at `i`. */
  lemma {:induction false} LessAt(a: string, b: string, i: nat)
    requires i < |a| && i < |b| && a[i] < b[i]
    requires forall j :: 0 <= j < i ==> a[j] == b[j]
    ensures Less(a, b)
  {
    if i > 0 {
      assert a[0] == b[0];
      LessAt(a[1..], b[1..], i - 1);
    }
  }

  lemma {:induction false} LessIrreflexive(a: string)
    ensures !Less(a, a)
  {
    if |a| > 0 {
      LessIrreflexive(a[1..]);
    }
  }

  lemma {:induction false} LessTransitive(a: string, b: string, c: string)
    requires Less(a, b) && Less(b, c)
    ensures Less(a, c)
  {
    if |a| > 0 && a[0] == b[0] && b[0] == c[0] {
      LessTransitive(a[1..], b[1..], c[1..]);
    }
  }

  /** No two strings are each smaller than the other. */
  lemma LessAsymmetric(a: string, b: string)
    ensures !(Less(a, b) && Less(b, a))
  {
    if Less(a, b) && Less(b, a) {
      LessTransitive(a, b, a);
      LessIrreflexive(a);
    }
  }

  /** Every name is strictly smaller than every name after it. */
  ghost predicate Ascending(names: seq<string>)
  {
    forall i, j :: 0 <= i < j < |names| ==> Less(names[i], names[j])
  }

  lemma {:induction false} AscendingChain(names: seq<string>, i: nat, j: nat)
    requires forall k :: 0 <= k < |names| - 1 ==> Less(names[k], names[k + 1])
    requires i < j < |names|
    ensures Less(names[i], names[j])
    decreases j - i
  {
    if j > i + 1 {
      AscendingChain(names, i, j - 1);
      LessTransitive(names[i], names[j - 1], names[j]);
    }
  }

  /** Ascending neighbours make the whole list ascending. */
  lemma AscendingFromNeighbours(names: seq<string>)
    requires forall k :: 0 <= k < |names| - 1 ==> Less(names[k], names[k + 1])
    ensures Ascending(names)
  {
    forall i, j | 0 <= i < j < |names| ensures Less(names[i], names[j]) {
      AscendingChain(names, i, j);
    }
  }
}
