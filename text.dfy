/**
 * The two string operations the component relies on: JavaScript's
 * `Array.prototype.join` and `String.prototype.substring(0, k)`.
 */
module Text {

  /** `xs.join(sep)`: the items in order with `sep` between neighbours, "" for no items. */
  function Join(xs: seq<string>, sep: string): (r: string)
    ensures xs == [] ==> r == ""
    ensures |xs| == 1 ==> r == xs[0]
    decreases |xs|
  {
    if |xs| == 0 then ""
    else if |xs| == 1 then xs[0]
    else Join(xs[..|xs| - 1], sep) + sep + xs[|xs| - 1]
  }

  /** The join starts with the first item and ends with the last. */
  lemma {:induction false} JoinEnds(xs: seq<string>, sep: string)
    requires xs != []
    ensures |xs[0]| <= |Join(xs, sep)| && Join(xs, sep)[..|xs[0]|] == xs[0]
    ensures |xs[|xs| - 1]| <= |Join(xs, sep)|
    ensures Join(xs, sep)[|Join(xs, sep)| - |xs[|xs| - 1]|..] == xs[|xs| - 1]
    decreases |xs|
  {
    if |xs| > 1 {
      var front := xs[..|xs| - 1];
      JoinEnds(front, sep);
      assert front[0] == xs[0];
      var j := Join(front, sep);
      assert Join(xs, sep) == j + sep + xs[|xs| - 1];
    }
  }

  /** `s.substring(0, k)`: the first `k` characters, or all of `s` when it is shorter. */
  function Take(s: string, k: nat): (r: string)
    ensures |r| == if k < |s| then k else |s|
    ensures r == s[..|r|]
  {
    if k < |s| then s[..k] else s
  }

  /** Joining two non-empty lists puts one separator between the two joins. */
  lemma {:induction false} JoinAppend(xs: seq<string>, ys: seq<string>, sep: string)
    requires xs != [] && ys != []
    ensures Join(xs + ys, sep) == Join(xs, sep) + sep + Join(ys, sep)
    decreases |ys|
  {
    var zs := xs + ys;
    if |ys| == 1 {
      assert zs[..|zs| - 1] == xs;
    } else {
      var front := ys[..|ys| - 1];
      assert zs[..|zs| - 1] == xs + front;
      assert zs[|zs| - 1] == ys[|ys| - 1];
      JoinAppend(xs, front, sep);
    }
  }

  /** With a non-empty separator the join is empty exactly for no items or one empty item. */
  lemma {:induction false} JoinEmpty(xs: seq<string>, sep: string)
    requires sep != ""
    ensures Join(xs, sep) == "" <==> xs == [] || xs == [""]
  {
    if |xs| > 1 {
      assert |Join(xs, sep)| >= |sep|;
    }
  }

  /** Items all `w` characters wide join to `w` per item plus one separator between neighbours. */
  lemma {:induction false} JoinUniformLength(xs: seq<string>, sep: string, w: nat)
    requires xs != []
    requires forall i :: 0 <= i < |xs| ==> |xs[i]| == w
    ensures |Join(xs, sep)| == w * |xs| + |sep| * (|xs| - 1)
    decreases |xs|
  {
    if |xs| > 1 {
      var front := xs[..|xs| - 1];
      JoinUniformLength(front, sep, w);
      assert |Join(xs, sep)| == |Join(front, sep)| + |sep| + w;
    }
  }
}
