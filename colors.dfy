/** RGB colours as the program stores them: three 8-bit channels, compared
    lexicographically as Rust compares `[u8; 3]`. */
module Colors {

  /** Rust's `u8`. */
  type byte = b: int | 0 <= b < 256

  /** One pixel's `[r, g, b]` triple. */
  datatype Color = Color(r: byte, g: byte, b: byte)

  /** The colour a freshly created canvas holds everywhere. */
  const Black: Color := Color(0, 0, 0)

  function ChannelDiff(a: byte, b: byte): (d: nat)
    ensures d <= 255
    ensures d == 0 <==> a == b
  {
    if a < b then b - a else a - b
  }

  /** Sum of absolute channel differences. It lies in `[0, 765]` and is zero
      exactly when the colours are equal. */
  function L1(a: Color, b: Color): (d: nat)
    ensures d <= 765
    ensures d == 0 <==> a == b
  {
    ChannelDiff(a.r, b.r) + ChannelDiff(a.g, b.g) + ChannelDiff(a.b, b.b)
  }

  /** Lexicographic order on `[r, g, b]`. */
  predicate ColorLess(a: Color, b: Color)
  {
    a.r < b.r || (a.r == b.r && (a.g < b.g || (a.g == b.g && a.b < b.b)))
  }

  predicate ColorLeq(a: Color, b: Color)
  {
    a == b || ColorLess(a, b)
  }

  /** The lexicographic order is a strict total order. */
  lemma ColorLessTotal(a: Color, b: Color, c: Color)
    ensures !ColorLess(a, a)
    ensures ColorLess(a, b) ==> !ColorLess(b, a)
    ensures ColorLess(a, b) && ColorLess(b, c) ==> ColorLess(a, c)
    ensures a == b || ColorLess(a, b) || ColorLess(b, a)
  {
  }

  /** `owned_array`: the first three elements of a slice as one colour; its
      channels, read back in order, are exactly those three bytes. */
  function OwnedArray(s: seq<byte>): (c: Color)
    requires |s| >= 3
    ensures [c.r, c.g, c.b] == s[..3]
  {
    Color(s[0], s[1], s[2])
  }
}
