/** The palette builder: one colour per pixel of the target in scan order,
    reduced in uniform mode to its distinct colours in increasing order. */
module Palette {
  import opened Colors

  /** The pixels of a raw `[r, g, b, r, g, b, ...]` buffer, one per complete
      group of three bytes, in buffer order. */
  function Pixels(raw: seq<byte>): seq<Color>
  {
    seq(|raw| / 3, i requires 0 <= i < |raw| / 3 => OwnedArray(raw[3 * i .. 3 * i + 3]))
  }

  /** The raw buffer of an image whose pixels, in scan order, are `p`. */
  function Flatten(p: seq<Color>): (raw: seq<byte>)
    ensures |raw| == 3 * |p|
    ensures forall i :: 0 <= i < |p| ==> raw[3 * i] == p[i].r && raw[3 * i + 1] == p[i].g && raw[3 * i + 2] == p[i].b
  {
    if p == [] then [] else [p[0].r, p[0].g, p[0].b] + Flatten(p[1..])
  }

  /** Reading pixels back from an image's raw buffer gives its pixels. */
  lemma PixelsOfFlatten(p: seq<Color>)
    ensures Pixels(Flatten(p)) == p
  {
    var raw := Flatten(p);
    assert |raw| / 3 == |p|;
    forall i | 0 <= i < |p|
      ensures Pixels(raw)[i] == p[i]
    {
      assert raw[3 * i .. 3 * i + 3] == [p[i].r, p[i].g, p[i].b];
    }
  }

  /** Non-decreasing: each colour is at most its successor. */
  predicate Sorted(s: seq<Color>)
  {
    forall i :: 0 <= i < |s| - 1 ==> ColorLeq(s[i], s[i + 1])
  }

  /** Strictly increasing: every colour is below every later one, so no
      colour occurs twice. */
  predicate StrictlySorted(s: seq<Color>)
  {
    forall i, j :: 0 <= i < j < |s| ==> ColorLess(s[i], s[j])
  }

  /** `c` placed into the sorted `s` before the first element not below it. */
  function Insert(s: seq<Color>, c: Color): (r: seq<Color>)
    requires Sorted(s)
    ensures Sorted(r)
    ensures multiset(r) == multiset(s) + multiset{c}
    ensures r[0] == c || (s != [] && r[0] == s[0])
  {
    if s == [] then [c]
    else if ColorLeq(c, s[0]) then [c] + s
    else
      ColorLessTotal(c, s[0], c);
      assert s == [s[0]] + s[1..];
      [s[0]] + Insert(s[1..], c)
  }

  /** `slice::sort`: the colours in non-decreasing order, same multiset. */
  function SortColors(s: seq<Color>): (r: seq<Color>)
    ensures Sorted(r)
    ensures multiset(r) == multiset(s)
  {
    if s == [] then []
    else
      assert s == s[..|s| - 1] + [s[|s| - 1]];
      Insert(SortColors(s[..|s| - 1]), s[|s| - 1])
  }

  /** `Vec::dedup`: every element equal to the last one kept is dropped, so
      each run of equal neighbours shrinks to its first element. */
  function Dedupped(s: seq<Color>): (r: seq<Color>)
    ensures forall i :: 0 <= i < |r| - 1 ==> r[i] != r[i + 1]
    ensures s != [] ==> r != [] && r[|r| - 1] == s[|s| - 1]
  {
    if s == [] then []
    else
      var kept := Dedupped(s[..|s| - 1]);
      if kept != [] && kept[|kept| - 1] == s[|s| - 1] then kept else kept + [s[|s| - 1]]
  }

  /** Dropping repeated neighbours keeps exactly the colours of `s`, ends with
      the last colour of `s`, and turns a sorted sequence into a strictly
      increasing one. */
  lemma {:induction false} DeduppedProperties(s: seq<Color>)
    ensures forall c :: c in Dedupped(s) <==> c in s
    ensures |Dedupped(s)| <= |s|
    ensures s != [] ==> Dedupped(s) != [] && Dedupped(s)[|Dedupped(s)| - 1] == s[|s| - 1]
    ensures Sorted(s) ==> StrictlySorted(Dedupped(s))
  {
    if s != [] {
      var init, last := s[..|s| - 1], s[|s| - 1];
      DeduppedProperties(init);
      assert s == init + [last];
      var kept := Dedupped(init);
      if Sorted(s) && kept != [] && kept[|kept| - 1] != last {
        assert Sorted(init);
        var top := kept[|kept| - 1];
        assert ColorLess(top, last) by {
          assert top == s[|s| - 2];
        }
        forall k | 0 <= k < |kept| - 1
          ensures ColorLess(kept[k], last)
        {
          ColorLessTotal(kept[k], top, last);
        }
      }
    }
  }

  /** Sorting then deduplicating leaves each colour of `s` exactly once, in
      strictly increasing order. */
  lemma UniformPalette(s: seq<Color>)
    ensures StrictlySorted(Dedupped(SortColors(s)))
    ensures forall c :: c in Dedupped(SortColors(s)) <==> c in s
  {
    var sorted := SortColors(s);
    DeduppedProperties(sorted);
    forall c
      ensures c in sorted <==> c in s
    {
      assert c in sorted <==> c in multiset(sorted);
      assert c in s <==> c in multiset(s);
    }
  }

  /** A complete group of three bytes starts at `3 * i` for every pixel `i`. */
  lemma GroupInRange(i: int, n: nat)
    requires 0 <= i < n / 3
    ensures 3 * i + 3 <= n
  {
  }

  /** The palette of a target whose raw buffer is `raw`: one colour per pixel
      in scan order, each read from three consecutive bytes; with `uniform`
      the result is sorted and deduplicated, so it is strictly increasing and
      holds every colour of the image exactly once. */
  method BuildPalette(raw: seq<byte>, uniform: bool) returns (palette: seq<Color>)
    ensures !uniform ==> |palette| == |raw| / 3
    ensures !uniform ==> forall i :: 0 <= i < |palette| ==> palette[i] == OwnedArray(raw[3 * i .. 3 * i + 3])
    ensures uniform ==> StrictlySorted(palette)
    ensures uniform ==> forall c :: c in palette <==> c in Pixels(raw)
  {
    palette := [];
    var i := 0;
    while i < |raw| / 3
      invariant 0 <= i <= |raw| / 3
      invariant |palette| == i
      invariant forall k :: 0 <= k < i ==> 3 * k + 3 <= |raw| && palette[k] == OwnedArray(raw[3 * k .. 3 * k + 3])
    {
      GroupInRange(i, |raw|);
      palette := palette + [OwnedArray(raw[3 * i .. 3 * (i + 1)])];
      i := i + 1;
    }
    if uniform {
      assert palette == Pixels(raw);
      UniformPalette(palette);
      palette := Dedupped(SortColors(palette));
    }
  }
}
