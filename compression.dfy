/**
 * `Compression` (tugger-debian/src/io.rs): the compression formats of Debian
 * repository files, their filename extensions and the order in which a
 * client prefers to fetch them.
 */
module Compressions {

  datatype Compression = None | Xz | Gzip | Bzip2 | Lzma

  /** `extension`: the filename suffix of a file in this format; empty exactly for uncompressed files. */
  function Extension(c: Compression): (e: string)
    ensures e == "" <==> c == None
    ensures e != "" ==> e[0] == '.' && 3 <= |e| <= 5
  {
    match c
    case None => ""
    case Xz => ".xz"
    case Gzip => ".gz"
    case Bzip2 => ".bz2"
    case Lzma => ".lzma"
  }

  /** No two formats share an extension, so the extension names the format. */
  lemma ExtensionsDistinct(a: Compression, b: Compression)
    ensures Extension(a) == Extension(b) <==> a == b
  {
  }

  /**
   * `default_preferred_order`: every format exactly once, the best
   * compression (xz) first and the uncompressed file last.
   */
  function DefaultPreferredOrder(): (order: seq<Compression>)
    ensures |order| == 5
    ensures forall c :: c in order
    ensures forall i, j :: 0 <= i < j < |order| ==> order[i] != order[j]
    ensures order[0] == Xz && order[4] == None
  {
    var order := [Xz, Lzma, Gzip, Bzip2, None];
    assert forall c :: c in order by {
      forall c ensures c in order {
        if c.Xz? { assert order[0] == c; }
        else if c.Lzma? { assert order[1] == c; }
        else if c.Gzip? { assert order[2] == c; }
        else if c.Bzip2? { assert order[3] == c; }
        else { assert order[4] == c; }
      }
    }
    order
  }

  /** The position of a format in the preference order. */
  function Rank(c: Compression): (k: nat)
    ensures k < |DefaultPreferredOrder()| && DefaultPreferredOrder()[k] == c
  {
    match c
    case Xz => 0
    case Lzma => 1
    case Gzip => 2
    case Bzip2 => 3
    case None => 4
  }

  /** Every compressed format is preferred to the uncompressed file, and xz to every other format. */
  lemma PreferCompressed(c: Compression)
    ensures c != None ==> Rank(c) < Rank(None)
    ensures c != Xz ==> Rank(Xz) < Rank(c)
  {
  }
}
