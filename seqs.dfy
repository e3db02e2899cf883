/** Element-wise images of sequences, stated once for any element function. */
module Seqs {
  import opened Wrappers

  /** The image of s under f, element by element and in order. */
  function Map<T, U>(f: T -> U, s: seq<T>): (r: seq<U>)
    ensures |r| == |s|
  {
    if s == [] then [] else Map(f, s[..|s| - 1]) + [f(s[|s| - 1])]
  }

  lemma {:induction false} MapAt<T, U>(f: T -> U, s: seq<T>, i: nat)
    requires i < |s|
    ensures Map(f, s)[i] == f(s[i])
    decreases |s|
  {
    var n := |s|;
    if i < n - 1 {
      MapAt(f, s[..n - 1], i);
      assert s[..n - 1][i] == s[i];
    }
  }

  /** Extending the input by one element extends the image by that element's image. */
  lemma {:induction false} MapSnoc<T, U>(f: T -> U, s: seq<T>, i: nat)
    requires i < |s|
    ensures Map(f, s[..i + 1]) == Map(f, s[..i]) + [Map(f, s)[i]]
  {
    MapAt(f, s, i);
    assert s[..i + 1][..i] == s[..i];
  }

  /** A property every image has holds of every element of Map(f, s). */
  lemma {:induction false} MapAll<T, U>(f: T -> U, P: U -> bool, s: seq<T>)
    requires forall x :: P(f(x))
    ensures forall k :: 0 <= k < |s| ==> P(Map(f, s)[k])
  {
    forall k | 0 <= k < |s| ensures P(Map(f, s)[k]) {
      MapAt(f, s, k);
    }
  }

  /** The images of all elements under g when every one exists, and None otherwise. */
  function MapOption<T, U>(g: T -> Option<U>, s: seq<T>): (r: Option<seq<U>>)
    ensures r.Some? ==> |r.value| == |s|
  {
    if s == [] then Some([])
    else match (MapOption(g, s[..|s| - 1]), g(s[|s| - 1]))
      case (Some(us), Some(u)) => Some(us + [u])
      case _ => None
  }

  /** Decoding every encoded element with a decoder that inverts the encoder recovers the images. */
  lemma {:induction false} MapOptionOfMap<T, U, V>(f: T -> U, g: U -> Option<V>, h: T -> V, s: seq<T>)
    requires forall x :: g(f(x)) == Some(h(x))
    ensures MapOption(g, Map(f, s)) == Some(Map(h, s))
    decreases |s|
  {
    if s != [] {
      var n := |s|;
      MapOptionOfMap(f, g, h, s[..n - 1]);
      MapSnoc(f, s, n - 1);
      MapAt(f, s, n - 1);
      assert s[..n] == s;
      assert Map(f, s)[..n - 1] == Map(f, s[..n - 1]);
    }
  }
}
