/** Bytes, and what several modules say about sequences. */
module SeqFacts {

  type UChar = x: int | 0 <= x < 256

  lemma Tail<E>(x: E, s: seq<E>)
    ensures ([x] + s)[0] == x && ([x] + s)[1..] == s
  {
  }

  /** A sequence without its element `g`. */
  function Without<E>(s: seq<E>, g: nat): seq<E>
    requires g < |s|
  {
    s[..g] + s[g + 1..]
  }

  /** The place of an element, or the length. */
  function IndexOf<E(==)>(s: seq<E>, e: E): (k: nat)
    ensures k <= |s| && (k < |s| ==> s[k] == e) && (k < |s| <==> e in s)
  {
    if s == [] || s[0] == e then 0 else 1 + IndexOf(s[1..], e)
  }
}
